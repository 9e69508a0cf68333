/**
 * Model of CardPile.java: a pile is an ordered list of card references anchored at
 * (x, y). Card k of a pile is drawn, and hit-tested, at (x + 12k, y + 0k) with size 72 x 96.
 * Java mutates the receiver (and sometimes the argument) in place; here each operation
 * returns the new values of the piles it changes.
 */
module CardPiles {
  import opened Wrappers
  import opened Cards

  /** Displacement between successive cards of a pile (`offsetX`, `offsetY`). */
  const OffsetX: int := 12
  const OffsetY: int := 0

  /** Size of a drawn card. */
  const CardWidth: int := 72
  const CardHeight: int := 96

  datatype Pile = Pile(cards: seq<CardId>, x: int, y: int)

  /** The exceptions a pile operation can raise. */
  datatype Fault = NoSuchElement | IndexOutOfBounds

  /** What `split` leaves: the receiver's new value and the returned pile. */
  datatype Parted = Parted(prefix: Pile, suffix: Pile)

  /** What `merge` leaves: the receiver's new value and the drained argument. */
  datatype Merged = Merged(pile: Pile, addition: Pile)

  /** No card occurs twice. */
  predicate Distinct(s: seq<CardId>)
  {
    forall i, j :: 0 <= i < j < |s| ==> s[i] != s[j]
  }

  /** The run `ins` spliced into `s` at `i`: where each part of the result comes from. */
  lemma Spliced(s: seq<CardId>, i: int, ins: seq<CardId>, r: seq<CardId>)
    requires 0 <= i <= |s| && r == s[..i] + ins + s[i..]
    ensures |r| == |s| + |ins|
    ensures r[..i] == s[..i] && r[i..i + |ins|] == ins && r[i + |ins|..] == s[i..]
    ensures r[..i] + r[i + |ins|..] == s
    ensures multiset(r) == multiset(s) + multiset(ins)
  {
    var a, c := s[..i], s[i..];
    assert s == a + c;
    assert r[..i] == a;
    assert r[i..i + |ins|] == ins;
    assert r[i + |ins|..] == c;
    assert multiset(r) == multiset(a) + multiset(ins) + multiset(c);
  }

  /** `indexOf(mark)`: first position of the mark; -1 when it is absent or null. */
  function IndexOf(s: seq<CardId>, mark: Option<CardId>): (i: int)
    ensures -1 <= i < |s|
    ensures i == -1 <==> mark.None? || mark.value !in s
    ensures 0 <= i ==> s[i] == mark.value && mark.value !in s[..i]
  {
    if mark.None? || |s| == 0 then -1
    else if s[0] == mark.value then 0
    else
      assert s == [s[0]] + s[1..];
      var j := IndexOf(s[1..], mark);
      if j == -1 then -1
      else
        assert s[..j + 1] == [s[0]] + s[1..][..j];
        j + 1
  }

  /** Last position of `m` in `s`, or -1: the card `split`'s backwards scan stops at. */
  function LastIndexOf(s: seq<CardId>, m: CardId): (i: int)
    ensures -1 <= i < |s|
    ensures i == -1 <==> m !in s
    ensures 0 <= i ==> s[i] == m && m !in s[i + 1..]
  {
    if |s| == 0 then -1
    else if s[|s| - 1] == m then |s| - 1
    else
      assert s == s[..|s| - 1] + [s[|s| - 1]];
      var i := LastIndexOf(s[..|s| - 1], m);
      if i >= 0 then assert s[i + 1..] == s[..|s| - 1][i + 1..] + [s[|s| - 1]]; i
      else i
  }

  /** A position holding `m` with no `m` after it is the last position of `m`. */
  lemma LastIndexOfUnique(s: seq<CardId>, m: CardId, k: int)
    requires 0 <= k < |s| && s[k] == m && m !in s[k + 1..]
    ensures LastIndexOf(s, m) == k
  {
  }

  /**
   * `split(mark)`: the receiver keeps the cards strictly before the mark, and the
   * returned pile, anchored at (0, 0), holds the mark and every later card in order.
   * A null or absent mark ends in `getLast` on an empty list (NoSuchElementException);
   * the "null moves the entire pile" of the comment is not what the code does.
   */
  function Split(p: Pile, mark: Option<CardId>): (r: Result<Parted, Fault>)
    ensures r.Ok? <==> mark.Some? && mark.value in p.cards
    ensures r.Err? ==> r.error == NoSuchElement
    ensures r.Ok? ==> r.value.prefix.cards + r.value.suffix.cards == p.cards
    ensures r.Ok? ==> |r.value.suffix.cards| > 0 && r.value.suffix.cards[0] == mark.value
                      && mark.value !in r.value.suffix.cards[1..]
    ensures r.Ok? ==> r.value.prefix.x == p.x && r.value.prefix.y == p.y
                      && r.value.suffix.x == 0 && r.value.suffix.y == 0
  {
    if mark.None? then Err(NoSuchElement)
    else
      var i := LastIndexOf(p.cards, mark.value);
      if i < 0 then Err(NoSuchElement)
      else
        assert p.cards == p.cards[..i] + p.cards[i..];
        Ok(Parted(Pile(p.cards[..i], p.x, p.y), Pile(p.cards[i..], 0, 0)))
  }

  /**
   * `split` as the Java loop runs it: move the last card to the front of the new pile
   * until the last card is the mark, then move the mark too. When the mark is null or
   * absent the loop drains the receiver before `getLast` throws, so the receiver is
   * left empty.
   */
  method SplitInPlace(p: Pile, mark: Option<CardId>) returns (receiver: Pile, result: Pile, thrown: Option<Fault>)
    ensures thrown.None? <==> Split(p, mark).Ok?
    ensures thrown.None? ==> Split(p, mark) == Ok(Parted(receiver, result))
    ensures thrown.Some? ==> thrown.value == NoSuchElement && receiver == Pile([], p.x, p.y)
  {
    var kept := p.cards;
    var moved: seq<CardId> := [];
    while |kept| > 0 && (mark.None? || kept[|kept| - 1] != mark.value)
      invariant kept + moved == p.cards
      invariant mark.Some? ==> mark.value !in moved
      decreases |kept|
    {
      moved := [kept[|kept| - 1]] + moved;
      kept := kept[..|kept| - 1];
    }
    if |kept| == 0 {
      assert moved == p.cards;
      return Pile([], p.x, p.y), Pile(moved, 0, 0), Some(NoSuchElement);
    }
    var m := kept[|kept| - 1];
    moved := [m] + moved;
    kept := kept[..|kept| - 1];
    assert kept + moved == p.cards;
    assert moved[1..] == p.cards[|kept| + 1..];
    LastIndexOfUnique(p.cards, m, |kept|);
    assert p.cards[..|kept|] == kept && p.cards[|kept|..] == moved;
    receiver, result, thrown := Pile(kept, p.x, p.y), Pile(moved, 0, 0), None;
  }

  /**
   * The body of `merge`'s loop: each `removeLast()` of the run is added at the same
   * index `at`, so the run ends up at `at` in its original order.
   */
  function InsertRunAt(s: seq<CardId>, at: int, run: seq<CardId>): (r: seq<CardId>)
    requires 0 <= at <= |s|
    ensures r == s[..at] + run + s[at..]
    decreases |run|
  {
    if |run| == 0 then s
    else
      var last := run[|run| - 1];
      var s' := s[..at] + [last] + s[at..];
      assert s'[..at] == s[..at] && s'[at..] == [last] + s[at..];
      assert run == run[..|run| - 1] + [last];
      InsertRunAt(s', at, run[..|run| - 1])
  }

  /**
   * `merge(addition, mark)`: the run of `addition` is inserted, in order, right after
   * the first occurrence of the mark, and `addition` is drained. The insertion index
   * `indexOf(mark) + 1` is 0 when the mark is null or absent, so the run is then
   * put in front of the pile.
   */
  function Merge(p: Pile, addition: Pile, mark: Option<CardId>): (r: Merged)
    ensures r.addition == addition.(cards := [])
    ensures r.pile.x == p.x && r.pile.y == p.y
    ensures |r.pile.cards| == |p.cards| + |addition.cards|
    ensures var at := IndexOf(p.cards, mark) + 1;
            && r.pile.cards[..at] == p.cards[..at]
            && r.pile.cards[at..at + |addition.cards|] == addition.cards
            && r.pile.cards[at + |addition.cards|..] == p.cards[at..]
    ensures mark.Some? && mark.value in p.cards ==> r.pile.cards[IndexOf(p.cards, mark)] == mark.value
    ensures mark.None? || mark.value !in p.cards ==> r.pile.cards == addition.cards + p.cards
    ensures multiset(r.pile.cards) == multiset(p.cards) + multiset(addition.cards)
  {
    var at := IndexOf(p.cards, mark) + 1;
    var cards := InsertRunAt(p.cards, at, addition.cards);
    Spliced(p.cards, at, addition.cards, cards);
    assert at == 0 ==> cards == addition.cards + p.cards by {
      assert at == 0 ==> p.cards[..at] == [] && p.cards[at..] == p.cards;
    }
    Merged(p.(cards := cards), addition.(cards := []))
  }

  /**
   * `insertBefore(card, mark)`: `add(indexOf(mark), card)`. The card lands immediately
   * before the first occurrence of the mark; a null or absent mark gives index -1 and
   * `add` throws IndexOutOfBoundsException before changing anything.
   */
  function InsertBefore(p: Pile, card: CardId, mark: Option<CardId>): (r: Result<Pile, Fault>)
    ensures r.Ok? <==> mark.Some? && mark.value in p.cards
    ensures r.Err? ==> r.error == IndexOutOfBounds
    ensures r.Ok? ==> |r.value.cards| == |p.cards| + 1 && r.value.x == p.x && r.value.y == p.y
    ensures r.Ok? ==> var i := IndexOf(p.cards, mark);
                      && r.value.cards[i] == card && r.value.cards[i + 1] == mark.value
                      && r.value.cards[..i] + r.value.cards[i + 1..] == p.cards
  {
    var i := IndexOf(p.cards, mark);
    if i < 0 then Err(IndexOutOfBounds)
    else
      var cards := p.cards[..i] + [card] + p.cards[i..];
      Spliced(p.cards, i, [card], cards);
      assert cards[i] == card && cards[i + 1] == p.cards[i];
      Ok(p.(cards := cards))
  }

  /**
   * `insertAfter(card, mark)`: the Java body is the same `add(indexOf(mark), card)`,
   * so despite its name it inserts before the mark.
   */
  function InsertAfter(p: Pile, card: CardId, mark: Option<CardId>): (r: Result<Pile, Fault>)
    ensures r == InsertBefore(p, card, mark)
  {
    var i := IndexOf(p.cards, mark);
    if i < 0 then Err(IndexOutOfBounds)
    else Ok(p.(cards := p.cards[..i] + [card] + p.cards[i..]))
  }

  /**
   * `insertBefore(insert, mark)`: `addAll(indexOf(mark), insert)`. The run of `insert`
   * lands, in order, immediately before the first occurrence of the mark. `addAll`
   * copies, so `insert` is left as it was (the comment says it is emptied; the code
   * does not do that); this function only returns the receiver's new value.
   */
  function InsertPileBefore(p: Pile, insert: Pile, mark: Option<CardId>): (r: Result<Pile, Fault>)
    ensures r.Ok? <==> mark.Some? && mark.value in p.cards
    ensures r.Err? ==> r.error == IndexOutOfBounds
    ensures r.Ok? ==> |r.value.cards| == |p.cards| + |insert.cards| && r.value.x == p.x && r.value.y == p.y
    ensures r.Ok? ==> var i, n := IndexOf(p.cards, mark), |insert.cards|;
                      && r.value.cards[i..i + n] == insert.cards
                      && r.value.cards[i + n] == mark.value
                      && r.value.cards[..i] + r.value.cards[i + n..] == p.cards
  {
    var i := IndexOf(p.cards, mark);
    if i < 0 then Err(IndexOutOfBounds)
    else
      var cards := p.cards[..i] + insert.cards + p.cards[i..];
      Spliced(p.cards, i, insert.cards, cards);
      Ok(p.(cards := cards))
  }

  /** `insertAfter(insert, mark)`: the same `addAll(indexOf(mark), insert)` as `insertBefore`. */
  function InsertPileAfter(p: Pile, insert: Pile, mark: Option<CardId>): (r: Result<Pile, Fault>)
    ensures r == InsertPileBefore(p, insert, mark)
  {
    var i := IndexOf(p.cards, mark);
    if i < 0 then Err(IndexOutOfBounds)
    else Ok(p.(cards := p.cards[..i] + insert.cards + p.cards[i..]))
  }

  /**
   * `append(suffix)`: `addAll(size(), suffix)`. The suffix's cards follow the pile's
   * own, the anchor stays, and an empty suffix changes nothing. The suffix itself is
   * not emptied, whatever the comment says; only the receiver's new value is returned.
   */
  function Append(p: Pile, suffix: Pile): (r: Pile)
    ensures |r.cards| == |p.cards| + |suffix.cards|
    ensures r.cards[..|p.cards|] == p.cards && r.cards[|p.cards|..] == suffix.cards
    ensures r.x == p.x && r.y == p.y
    ensures |suffix.cards| == 0 ==> r == p
  {
    p.(cards := p.cards + suffix.cards)
  }

  /**
   * `flipCard` applied to each card of `run` in turn, on the arena `deck` that holds
   * the face state of card k at position k. A card is turned over once per occurrence,
   * so its final state depends on the parity of its count in `run`.
   */
  function FlipRun(deck: seq<Card>, run: seq<CardId>): (r: seq<Card>)
    requires |deck| == DeckSize
    ensures |r| == DeckSize
    ensures forall c: CardId :: r[c].prototype == deck[c].prototype
    ensures forall c: CardId :: r[c].isFaceUp == (deck[c].isFaceUp != (multiset(run)[c] % 2 == 1))
    decreases |run|
  {
    if |run| == 0 then deck
    else
      var first := run[0];
      var turned := deck[first := FlipCard(deck[first])];
      var rest := FlipRun(turned, run[1..]);
      assert forall c: CardId :: rest[c].isFaceUp == (deck[c].isFaceUp != (multiset(run)[c] % 2 == 1)) by {
        forall c: CardId ensures rest[c].isFaceUp == (deck[c].isFaceUp != (multiset(run)[c] % 2 == 1)) {
          CountFirst(run, c);
          assert turned[c].isFaceUp == (deck[c].isFaceUp != (c == first));
        }
      }
      rest
  }

  /** A card's count in a run is its count after the first card, plus one if it is the first. */
  lemma CountFirst(run: seq<CardId>, c: CardId)
    requires |run| > 0
    ensures multiset(run)[c] == multiset(run[1..])[c] + if c == run[0] then 1 else 0
  {
    assert run == [run[0]] + run[1..];
  }

  /** In a run without repeats a card occurs once when it is in the run and never otherwise. */
  lemma {:induction false} DistinctCount(s: seq<CardId>, c: CardId)
    requires Distinct(s)
    ensures multiset(s)[c] == if c in s then 1 else 0
  {
    if |s| > 0 {
      assert s == [s[0]] + s[1..];
      assert Distinct(s[1..]) by {
        forall i, j | 0 <= i < j < |s[1..]| ensures s[1..][i] != s[1..][j] {
          assert s[1..][i] == s[i + 1] && s[1..][j] == s[j + 1];
        }
      }
      DistinctCount(s[1..], c);
      if c == s[0] {
        assert c !in s[1..] by {
          forall k | 0 <= k < |s[1..]| ensures s[1..][k] != c {
            assert s[1..][k] == s[k + 1];
          }
        }
      }
    }
  }

  /**
   * `flip(p)`: turns over every card of `p`; the receiver plays no part. For a pile
   * without repeats exactly the cards of `p` change state, and no card changes rank
   * or suit.
   */
  function Flip(deck: seq<Card>, p: Pile): (r: seq<Card>)
    requires |deck| == DeckSize
    ensures |r| == DeckSize
    ensures forall c: CardId :: r[c].prototype == deck[c].prototype
    ensures Distinct(p.cards) ==> forall c: CardId :: r[c].isFaceUp == (deck[c].isFaceUp != (c in p.cards))
  {
    var r := FlipRun(deck, p.cards);
    if Distinct(p.cards) then
      assert forall c: CardId :: multiset(p.cards)[c] == if c in p.cards then 1 else 0 by {
        forall c: CardId { DistinctCount(p.cards, c); }
      }
      r
    else r
  }

  /** Flipping the same pile twice restores every card's face state. */
  lemma {:induction false} FlipTwice(deck: seq<Card>, p: Pile)
    requires |deck| == DeckSize
    ensures Flip(Flip(deck, p), p) == deck
  {
    var once := Flip(deck, p);
    var twice := Flip(once, p);
    forall c: CardId
      ensures twice[c] == deck[c]
    {
      assert twice[c].isFaceUp == deck[c].isFaceUp;
    }
    assert forall k :: 0 <= k < |deck| ==> twice[k] == deck[k] by {
      forall k | 0 <= k < |deck| ensures twice[k] == deck[k] {
        var c: CardId := k;
        assert twice[c] == deck[c];
      }
    }
  }

  /**
   * `locateCard`'s test for card k of `p`: x within [cx, cx + 72] (right edge included)
   * and y within [cy, cy + 96), where (cx, cy) is where card k is drawn.
   */
  predicate Hit(p: Pile, k: int, x: int, y: int)
  {
    var cx, cy := p.x + k * OffsetX, p.y + k * OffsetY;
    cx <= x <= cx + CardWidth && cy <= y < cy + CardHeight
  }

  /** The highest position below `n` whose card is hit, or -1. */
  function TopmostBelow(p: Pile, n: int, x: int, y: int): (k: int)
    requires 0 <= n <= |p.cards|
    ensures -1 <= k < n
    ensures 0 <= k ==> Hit(p, k, x, y)
    ensures forall j :: k < j < n ==> !Hit(p, j, x, y)
    decreases n
  {
    if n == 0 then -1
    else if Hit(p, n - 1, x, y) then n - 1
    else TopmostBelow(p, n - 1, x, y)
  }

  /**
   * `locateCard(x, y)`: the topmost (last drawn, highest position) card whose box
   * contains the point, or null when no card's box does, the empty pile included.
   */
  function LocateCard(p: Pile, x: int, y: int): (r: Option<CardId>)
    ensures r.None? <==> forall k :: 0 <= k < |p.cards| ==> !Hit(p, k, x, y)
    ensures r.Some? ==> exists k :: 0 <= k < |p.cards| && p.cards[k] == r.value && Hit(p, k, x, y)
                                   && forall j :: k < j < |p.cards| ==> !Hit(p, j, x, y)
  {
    var k := TopmostBelow(p, |p.cards|, x, y);
    if k < 0 then None else Some(p.cards[k])
  }

  /**
   * `locateCard` as the Java loop runs it: walk the pile bottom to top, moving the
   * drawing position (cx, cy) by the offset after each card, and remember the last
   * card whose box contains the point.
   */
  method LocateCardScan(p: Pile, x: int, y: int) returns (result: Option<CardId>)
    ensures result == LocateCard(p, x, y)
  {
    result := None;
    var cx, cy := p.x, p.y;
    var k := 0;
    while k < |p.cards|
      invariant 0 <= k <= |p.cards|
      invariant cx == p.x + k * OffsetX && cy == p.y + k * OffsetY
      invariant var t := TopmostBelow(p, k, x, y); result == if t < 0 then None else Some(p.cards[t])
    {
      if x >= cx && x <= cx + CardWidth && y >= cy && y < cy + CardHeight {
        result := Some(p.cards[k]);
      }
      cx := cx + OffsetX;
      cy := cy + OffsetY;
      k := k + 1;
    }
  }

  /** Splitting at a mark and appending the returned pile restores the pile exactly. */
  lemma SplitThenAppend(p: Pile, mark: Option<CardId>)
    requires Split(p, mark).Ok?
    ensures Append(Split(p, mark).value.prefix, Split(p, mark).value.suffix) == p
  {
  }

  /** The card after which `merge` must put a run to restore what `split` removed. */
  function LastCard(s: seq<CardId>): (m: Option<CardId>)
    ensures m.None? <==> |s| == 0
    ensures m.Some? ==> m.value == s[|s| - 1]
  {
    if |s| == 0 then None else Some(s[|s| - 1])
  }

  /**
   * In a pile without repeats, merging the split-off run back after the last card kept
   * (or at the front, with a null mark, when nothing was kept) restores the pile.
   */
  lemma SplitThenMerge(p: Pile, mark: Option<CardId>)
    requires Distinct(p.cards) && Split(p, mark).Ok?
    ensures var parts := Split(p, mark).value;
            Merge(parts.prefix, parts.suffix, LastCard(parts.prefix.cards)).pile == p
  {
    var parts := Split(p, mark).value;
    var pre := parts.prefix.cards;
    assert pre == p.cards[..|pre|];
    DistinctPrefix(p.cards, |pre|);
    MergeAfterLast(parts.prefix, parts.suffix);
  }

  /** Merging after the last card of a pile without repeats appends the run. */
  lemma MergeAfterLast(q: Pile, addition: Pile)
    requires Distinct(q.cards)
    ensures Merge(q, addition, LastCard(q.cards)).pile == q.(cards := q.cards + addition.cards)
  {
    IndexOfLastCard(q.cards);
    var r := Merge(q, addition, LastCard(q.cards)).pile;
    var n := |q.cards|;
    assert r.cards[..n] == q.cards;
    assert r.cards[n..] == addition.cards;
    assert r.cards == r.cards[..n] + r.cards[n..];
  }

  /** A prefix of a pile without repeats has none either. */
  lemma DistinctPrefix(s: seq<CardId>, n: int)
    requires Distinct(s) && 0 <= n <= |s|
    ensures Distinct(s[..n])
  {
    var pre := s[..n];
    forall a, b | 0 <= a < b < |pre| ensures pre[a] != pre[b] {
      assert pre[a] == s[a] && pre[b] == s[b];
    }
  }

  /** In a run without repeats the last card is found at the last position. */
  lemma IndexOfLastCard(s: seq<CardId>)
    requires Distinct(s)
    ensures IndexOf(s, LastCard(s)) + 1 == |s|
  {
    if |s| > 0 {
      var i := IndexOf(s, LastCard(s));
      assert s[i] == s[|s| - 1];
    }
  }
}
