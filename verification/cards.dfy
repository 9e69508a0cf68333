/**
 * Model of Card.java: the immutable rank/suit prototype of a card, the face-up flag,
 * the 52-slot prototype deck built by the static initializer, `newDeck` and `toString`.
 */
module Cards {
  import opened Wrappers

  /** `Card.Rank`, in declaration order. */
  datatype Rank = Deuce | Three | Four | Five | Six | Seven | Eight | Nine | Ten | Jack | Queen | King | Ace

  /** `Card.Suit`, in declaration order. */
  datatype Suit = Clubs | Diamonds | Hearts | Spades

  /** `Rank.values().length`, `Suit.values().length` and the size of `protoDeck`. */
  const RankCount: int := 13
  const SuitCount: int := 4
  const DeckSize: int := 52

  /**
   * A card reference. `Card` has no `equals`, so cards are told apart by identity;
   * the only cards the program ever creates are the 52 of one `newDeck` call, and
   * card `k` is the one at position `k` of that deck.
   */
  type CardId = k: int | 0 <= k < 52

  /** The final `prototype` of a card (its image is not modelled). */
  datatype ProtoCard = ProtoCard(rank: Rank, suit: Suit)

  /** A card: a fixed prototype and a mutable orientation. */
  datatype Card = Card(prototype: ProtoCard, isFaceUp: bool)

  /** Position of `r` in `Rank.values()`. */
  function RankOrdinal(r: Rank): (i: int)
    ensures 0 <= i < RankCount
  {
    match r
    case Deuce => 0 case Three => 1 case Four => 2 case Five => 3 case Six => 4
    case Seven => 5 case Eight => 6 case Nine => 7 case Ten => 8 case Jack => 9
    case Queen => 10 case King => 11 case Ace => 12
  }

  /** `Rank.values()[i]`: the rank whose ordinal is `i`. */
  function RankAt(i: int): (r: Rank)
    requires 0 <= i < RankCount
    ensures RankOrdinal(r) == i
  {
    if i == 0 then Deuce else if i == 1 then Three else if i == 2 then Four
    else if i == 3 then Five else if i == 4 then Six else if i == 5 then Seven
    else if i == 6 then Eight else if i == 7 then Nine else if i == 8 then Ten
    else if i == 9 then Jack else if i == 10 then Queen else if i == 11 then King
    else Ace
  }

  /** Position of `s` in `Suit.values()`. */
  function SuitOrdinal(s: Suit): (j: int)
    ensures 0 <= j < SuitCount
  {
    match s
    case Clubs => 0 case Diamonds => 1 case Hearts => 2 case Spades => 3
  }

  /** `Suit.values()[j]`: the suit whose ordinal is `j`. */
  function SuitAt(j: int): (s: Suit)
    requires 0 <= j < SuitCount
    ensures SuitOrdinal(s) == j
  {
    if j == 0 then Clubs else if j == 1 then Diamonds else if j == 2 then Hearts else Spades
  }

  /** Ordinals and `values()` are mutually inverse. */
  lemma OrdinalsRoundTrip(r: Rank, s: Suit)
    ensures RankAt(RankOrdinal(r)) == r
    ensures SuitAt(SuitOrdinal(s)) == s
  {
  }

  /** The slot `i + ranks.length * j` that the static initializer gives to (rank i, suit j). */
  function ProtoIndex(p: ProtoCard): (k: int)
    ensures 0 <= k < DeckSize
  {
    RankOrdinal(p.rank) + RankCount * SuitOrdinal(p.suit)
  }

  /** The prototype stored in slot `k` of `protoDeck`. */
  function ProtoAt(k: int): (p: ProtoCard)
    requires 0 <= k < DeckSize
    ensures ProtoIndex(p) == k
  {
    ProtoCard(RankAt(k % RankCount), SuitAt(k / RankCount))
  }

  /**
   * Every (rank, suit) pair owns exactly one slot: `ProtoIndex` is a bijection
   * between prototypes and 0..51 whose inverse is `ProtoAt`.
   */
  lemma ProtoIndexBijective(p: ProtoCard, q: ProtoCard)
    ensures ProtoAt(ProtoIndex(p)) == p
    ensures ProtoIndex(p) == ProtoIndex(q) ==> p == q
  {
    var i, j := RankOrdinal(p.rank), SuitOrdinal(p.suit);
    assert ProtoIndex(p) % RankCount == i && ProtoIndex(p) / RankCount == j;
    OrdinalsRoundTrip(p.rank, p.suit);
    OrdinalsRoundTrip(q.rank, q.suit);
    var i', j' := RankOrdinal(q.rank), SuitOrdinal(q.suit);
    assert ProtoIndex(q) % RankCount == i' && ProtoIndex(q) / RankCount == j';
  }

  /**
   * The static initializer of `Card`: for every rank i and suit j it stores
   * ProtoCard(ranks[i], suits[j]) in slot i + 13 * j. Slots start out `null`
   * (`None`); each write lands on a slot that is still empty, and none is left empty.
   */
  method BuildProtoDeck() returns (protoDeck: seq<ProtoCard>)
    ensures |protoDeck| == DeckSize
    ensures forall k :: 0 <= k < DeckSize ==> ProtoIndex(protoDeck[k]) == k
    ensures forall k :: 0 <= k < DeckSize ==> protoDeck[k] == ProtoAt(k)
  {
    var slots: seq<Option<ProtoCard>> := seq(DeckSize, _ => None);
    var i := 0;
    while i < RankCount
      invariant 0 <= i <= RankCount
      invariant |slots| == DeckSize
      invariant forall k :: 0 <= k < DeckSize ==> (slots[k].Some? <==> k % RankCount < i)
      invariant forall k :: 0 <= k < DeckSize && slots[k].Some? ==> ProtoIndex(slots[k].value) == k
    {
      var j := 0;
      while j < SuitCount
        invariant 0 <= j <= SuitCount
        invariant |slots| == DeckSize
        invariant forall k :: 0 <= k < DeckSize ==>
          (slots[k].Some? <==> k % RankCount < i || (k % RankCount == i && k / RankCount < j))
        invariant forall k :: 0 <= k < DeckSize && slots[k].Some? ==> ProtoIndex(slots[k].value) == k
      {
        var slot := i + RankCount * j;
        assert slot % RankCount == i && slot / RankCount == j;
        assert slots[slot].None?;
        slots := slots[slot := Some(ProtoCard(RankAt(i), SuitAt(j)))];
        j := j + 1;
      }
      i := i + 1;
    }
    protoDeck := seq(DeckSize, k requires 0 <= k < DeckSize => slots[k].value);
    forall k | 0 <= k < DeckSize ensures protoDeck[k] == ProtoAt(k) {
      ProtoIndexBijective(protoDeck[k], ProtoAt(k));
    }
  }

  /** `flipCard`: turns the card over; the final prototype is untouched. */
  function FlipCard(c: Card): (r: Card)
    ensures r.isFaceUp == !c.isFaceUp
    ensures r.prototype == c.prototype
  {
    c.(isFaceUp := !c.isFaceUp)
  }

  /** Turning a card over twice restores it. */
  lemma FlipCardTwice(c: Card)
    ensures FlipCard(FlipCard(c)) == c
  {
  }

  /**
   * `newDeck`: 52 face-down cards, card k built on prototype k, so each
   * (rank, suit) pair occurs on exactly one card of the deck.
   */
  function NewDeck(): (deck: seq<Card>)
    ensures |deck| == DeckSize
    ensures forall k :: 0 <= k < DeckSize ==> !deck[k].isFaceUp && ProtoIndex(deck[k].prototype) == k
  {
    seq(DeckSize, k requires 0 <= k < DeckSize => Card(ProtoAt(k), false))
  }

  /** No two cards of a new deck share a rank and a suit, and every pair is present. */
  lemma NewDeckHasEachPrototypeOnce(p: ProtoCard, k: int, m: int)
    requires 0 <= k < DeckSize && 0 <= m < DeckSize
    ensures NewDeck()[ProtoIndex(p)].prototype == p
    ensures NewDeck()[k].prototype == NewDeck()[m].prototype ==> k == m
  {
    ProtoIndexBijective(p, p);
  }

  /** `Rank.toString()`: the enum constant's name. */
  function RankName(r: Rank): string
  {
    match r
    case Deuce => "DEUCE" case Three => "THREE" case Four => "FOUR" case Five => "FIVE"
    case Six => "SIX" case Seven => "SEVEN" case Eight => "EIGHT" case Nine => "NINE"
    case Ten => "TEN" case Jack => "JACK" case Queen => "QUEEN" case King => "KING"
    case Ace => "ACE"
  }

  /** `Suit.toString()`: the enum constant's name. */
  function SuitName(s: Suit): string
  {
    match s
    case Clubs => "CLUBS" case Diamonds => "DIAMONDS" case Hearts => "HEARTS" case Spades => "SPADES"
  }

  /** `Card.toString()`: "RANK of SUIT", a text that names exactly the card's rank and suit. */
  function CardText(c: Card): (s: string)
    ensures ParseCardText(s) == Some(c.prototype)
  {
    TextParsesBack(c.prototype);
    RankName(c.prototype.rank) + " of " + SuitName(c.prototype.suit)
  }

  /** Index of the first blank in `s`, or `|s|` when there is none. */
  function FirstBlank(s: string): (i: int)
    ensures 0 <= i <= |s|
    ensures ' ' !in s[..i]
    ensures i < |s| ==> s[i] == ' '
  {
    if |s| == 0 then 0
    else if s[0] == ' ' then 0
    else
      var i := FirstBlank(s[1..]);
      assert s[..i + 1] == [s[0]] + s[1..][..i];
      i + 1
  }

  /** The rank among `RankAt(from)`, ..., `RankAt(12)` whose name is `name`. */
  function RankNamedFrom(name: string, from: int): (r: Option<Rank>)
    requires 0 <= from <= RankCount
    ensures r.Some? ==> RankName(r.value) == name
    decreases RankCount - from
  {
    if from == RankCount then None
    else if RankName(RankAt(from)) == name then Some(RankAt(from))
    else RankNamedFrom(name, from + 1)
  }

  /** The suit among `SuitAt(from)`, ..., `SuitAt(3)` whose name is `name`. */
  function SuitNamedFrom(name: string, from: int): (s: Option<Suit>)
    requires 0 <= from <= SuitCount
    ensures s.Some? ==> SuitName(s.value) == name
    decreases SuitCount - from
  {
    if from == SuitCount then None
    else if SuitName(SuitAt(from)) == name then Some(SuitAt(from))
    else SuitNamedFrom(name, from + 1)
  }

  lemma Rejoin(s: string, i: int)
    requires 0 <= i && i + 4 <= |s| && s[i..i + 4] == " of "
    ensures s[..i] + " of " + s[i + 4..] == s
  {
    assert s == s[..i] + s[i..i + 4] + s[i + 4..];
  }

  /** Reads "RANK of SUIT" back into a prototype; the inverse of `CardText`. */
  function ParseCardText(s: string): (p: Option<ProtoCard>)
    ensures p.Some? ==> RankName(p.value.rank) + " of " + SuitName(p.value.suit) == s
  {
    var i := FirstBlank(s);
    if i + 4 <= |s| && s[i..i + 4] == " of " then
      var rank, suit := RankNamedFrom(s[..i], 0), SuitNamedFrom(s[i + 4..], 0);
      if rank.Some? && suit.Some? then
        Rejoin(s, i);
        Some(ProtoCard(rank.value, suit.value))
      else None
    else None
  }

  /** Names of distinct ranks differ, names of distinct suits differ, and no name holds a blank. */
  lemma NamesDistinct(r: Rank, r': Rank, s: Suit, s': Suit)
    ensures RankName(r) == RankName(r') ==> r == r'
    ensures SuitName(s) == SuitName(s') ==> s == s'
    ensures ' ' !in RankName(r)
  {
  }

  lemma RankNamedFromFinds(r: Rank, from: int)
    requires 0 <= from <= RankOrdinal(r)
    ensures RankNamedFrom(RankName(r), from) == Some(r)
    decreases RankCount - from
  {
    OrdinalsRoundTrip(r, Clubs);
    if RankName(RankAt(from)) != RankName(r) {
      RankNamedFromFinds(r, from + 1);
    } else {
      NamesDistinct(RankAt(from), r, Clubs, Clubs);
    }
  }

  lemma SuitNamedFromFinds(s: Suit, from: int)
    requires 0 <= from <= SuitOrdinal(s)
    ensures SuitNamedFrom(SuitName(s), from) == Some(s)
    decreases SuitCount - from
  {
    OrdinalsRoundTrip(Deuce, s);
    if SuitName(SuitAt(from)) != SuitName(s) {
      SuitNamedFromFinds(s, from + 1);
    } else {
      NamesDistinct(Deuce, Deuce, SuitAt(from), s);
    }
  }

  /** The names of a rank and a suit joined by " of " read back as that rank and suit. */
  lemma {:induction false} TextParsesBack(p: ProtoCard)
    ensures ParseCardText(RankName(p.rank) + " of " + SuitName(p.suit)) == Some(p)
  {
    var rn, sn := RankName(p.rank), SuitName(p.suit);
    var s := rn + " of " + sn;
    NamesDistinct(p.rank, p.rank, p.suit, p.suit);
    assert s[..|rn|] == rn;
    assert s[|rn|] == ' ';
    var i := FirstBlank(s);
    assert i == |rn|;
    assert s[i..i + 4] == " of ";
    assert s[i + 4..] == sn;
    RankNamedFromFinds(p.rank, 0);
    SuitNamedFromFinds(p.suit, 0);
  }
}
