/**
 * Model of CardTable.java: five fixed piles, one per 100-pixel row, the pile in motion,
 * the pointer state (`isDragging`, `cardUnderMouse`, `pileUnderMouse`) and the mouse
 * handlers that split, move, merge and flip runs of cards. The face state of the 52
 * cards is held in `deck`, card k at position k.
 */
module CardTables {
  import opened Wrappers
  import opened Cards
  import opened CardPiles

  /** `NPILE`, and the height of the row each pile owns (`y / 100` selects a row). */
  const NPile: int := 5
  const RowHeight: int := 100

  /** Fixed pile i is anchored at (PileX, PileY + 100 i). */
  const PileX: int := 2
  const PileY: int := 2

  datatype Table = Table(
    piles: seq<Pile>,
    movingPile: Pile,
    isDragging: bool,
    cardUnderMouse: Option<CardId>,
    pileUnderMouse: int,
    deck: seq<Card>)

  /** The fixed sizes of the source: the `pile` array has five slots, the deck 52 cards. */
  predicate WellFormed(t: Table)
  {
    |t.piles| == NPile && |t.deck| == DeckSize
  }

  /**
   * How a handler ended: normally, or by throwing `fault` after having written `table`.
   * Swing's event thread reports an uncaught exception and dispatches the next event
   * on whatever state the handler left behind.
   */
  datatype Outcome = Done(table: Table) | Threw(table: Table, fault: Fault)

  /** Java's `a / b` for a positive divisor: the quotient rounded toward zero. */
  function TruncDiv(a: int, b: int): (q: int)
    requires b > 0
    ensures 0 <= a ==> 0 <= q && q * b <= a < q * b + b
    ensures a < 0 ==> q <= 0 && q * b - b < a <= q * b
  {
    if a >= 0 then
      DivBounds(a, b);
      a / b
    else
      DivBounds(-a, b);
      var n := (-a) / b;
      assert (-n) * b == -(n * b);
      -n
  }

  /** Dafny's division of a natural number brackets it between two multiples of the divisor. */
  lemma DivBounds(a: int, b: int)
    requires 0 <= a && 0 < b
    ensures 0 <= a / b && (a / b) * b <= a < (a / b) * b + b
  {
    var q, r := a / b, a % b;
    assert a == q * b + r && 0 <= r < b;
  }

  /** Heights whose `y / 100` names one of the five rows; with truncation that includes -99..-1. */
  predicate InRows(y: int)
  {
    -RowHeight < y < NPile * RowHeight
  }

  /** `y / 100`: the row a pointer at height `y` is over. */
  function RowOf(y: int): (row: int)
    ensures 0 <= row < NPile <==> InRows(y)
  {
    TruncDiv(y, RowHeight)
  }

  /** `getPile(i)`: the pile of row i, or null outside 0..4. */
  function GetPile(t: Table, i: int): (r: Option<Pile>)
    requires WellFormed(t)
    ensures r.Some? <==> 0 <= i < NPile
    ensures r.Some? ==> r.value == t.piles[i]
  {
    if 0 <= i < NPile then Some(t.piles[i]) else None
  }

  /** `setPile(i, p)`: stores `p`, re-anchored at its row's fixed place; outside 0..4 nothing changes. */
  function SetPile(t: Table, i: int, p: Pile): (r: Table)
    requires WellFormed(t)
    ensures WellFormed(r)
    ensures 0 <= i < NPile ==> r.piles[i] == Pile(p.cards, PileX, PileY + RowHeight * i)
    ensures forall j :: 0 <= j < NPile && j != i ==> r.piles[j] == t.piles[j]
    ensures r.(piles := t.piles) == t
  {
    if 0 <= i < NPile then t.(piles := t.piles[i := p.(x := PileX, y := PileY + RowHeight * i)])
    else t
  }

  /** Reading a pile back after storing it gives the re-anchored pile, and leaves other rows alone. */
  lemma GetAfterSet(t: Table, i: int, j: int, p: Pile)
    requires WellFormed(t)
    ensures GetPile(SetPile(t, i, p), j) ==
            if j == i && 0 <= i < NPile then Some(Pile(p.cards, PileX, PileY + RowHeight * i))
            else GetPile(t, j)
  {
  }

  /** `CardTable.locateCard(x, y)`: `pile[y / 100].locateCard(x, y)`, with no bounds check. */
  function TableLocate(t: Table, x: int, y: int): (r: Result<Option<CardId>, Fault>)
    requires WellFormed(t)
    ensures r.Ok? <==> InRows(y)
    ensures r.Err? ==> r.error == IndexOutOfBounds
    ensures r.Ok? ==> r.value == LocateCard(t.piles[RowOf(y)], x, y)
  {
    var row := RowOf(y);
    if 0 <= row < NPile then Ok(LocateCard(t.piles[row], x, y)) else Err(IndexOutOfBounds)
  }

  /** The cards of the fixed piles, row by row. */
  function Flatten(ps: seq<Pile>): seq<CardId>
  {
    if |ps| == 0 then [] else ps[0].cards + Flatten(ps[1..])
  }

  /** Every card the table holds: the five fixed piles, then the pile in motion. */
  function Contents(t: Table): seq<CardId>
  {
    Flatten(t.piles) + t.movingPile.cards
  }

  /** Each of the 52 cards occurs exactly once. */
  predicate ExactlyOnce(s: seq<CardId>)
  {
    forall c: CardId :: multiset(s)[c] == 1
  }

  /** No card is being carried: the state between a release and the next press. */
  predicate Idle(t: Table)
  {
    |t.movingPile.cards| == 0
  }

  /**
   * The pointer state is usable: a remembered card with an in-range row lies in that
   * row's pile, and nothing is being carried yet.
   */
  predicate Coherent(t: Table)
  {
    && WellFormed(t)
    && (t.cardUnderMouse.Some? && 0 <= t.pileUnderMouse < NPile ==>
          t.cardUnderMouse.value in t.piles[t.pileUnderMouse].cards && Idle(t))
  }

  /** The table invariant: coherent pointer state, all 52 cards present once, prototypes fixed. */
  predicate Inv(t: Table)
  {
    && Coherent(t)
    && ExactlyOnce(Contents(t))
    && forall c: CardId :: ProtoIndex(t.deck[c].prototype) == c
  }

  /** `mousePressed`: remember the row and the topmost card under the pointer. */
  function Press(t: Table, x: int, y: int): (o: Outcome)
    requires WellFormed(t)
    ensures o.Done? <==> InRows(y)
    ensures o.Threw? ==> o.fault == IndexOutOfBounds && o.table.cardUnderMouse == t.cardUnderMouse
    ensures o.Done? ==> o.table.cardUnderMouse == LocateCard(t.piles[RowOf(y)], x, y)
    ensures o.table == t.(pileUnderMouse := RowOf(y), cardUnderMouse := o.table.cardUnderMouse)
  {
    var t1 := t.(pileUnderMouse := RowOf(y));
    match TableLocate(t1, x, y)
    case Err(e) => Threw(t1, e)
    case Ok(card) => Done(t1.(cardUnderMouse := card))
  }

  /**
   * `mouseDragged`: if a card was pressed, split it and every later card off its pile
   * into `movingPile` and forget the card, so later drags do not split again. Then
   * `if (isDragging = true)` assigns, so every drag sets `isDragging` and moves the
   * moving pile's anchor to the pointer.
   */
  function Drag(t: Table, x: int, y: int): (o: Outcome)
    requires WellFormed(t)
    ensures WellFormed(o.table) && o.table.deck == t.deck
    ensures o.Done? ==> o.table.isDragging && o.table.movingPile.x == x && o.table.movingPile.y == y
                        && o.table.cardUnderMouse.None?
    ensures t.cardUnderMouse.None? ==>
              o == Done(t.(isDragging := true, movingPile := t.movingPile.(x := x, y := y)))
    ensures t.cardUnderMouse.Some? && !(0 <= t.pileUnderMouse < NPile) ==> o == Threw(t, IndexOutOfBounds)
    ensures t.cardUnderMouse.Some? && 0 <= t.pileUnderMouse < NPile ==>
              var i, c := t.pileUnderMouse, t.cardUnderMouse.value;
              && (o.Done? <==> c in t.piles[i].cards)
              && (o.Done? ==> o.table.piles[i].cards + o.table.movingPile.cards == t.piles[i].cards
                              && |o.table.movingPile.cards| > 0 && o.table.movingPile.cards[0] == c
                              && c !in o.table.movingPile.cards[1..]
                              && o.table == t.(piles := t.piles[i := t.piles[i].(cards := o.table.piles[i].cards)],
                                               movingPile := o.table.movingPile, isDragging := true,
                                               cardUnderMouse := None))
              && (o.Threw? ==> o.fault == NoSuchElement
                               && o.table == t.(piles := t.piles[i := t.piles[i].(cards := [])]))
  {
    if t.cardUnderMouse.Some? then
      var i := t.pileUnderMouse;
      if !(0 <= i < NPile) then Threw(t, IndexOutOfBounds)
      else
        match Split(t.piles[i], t.cardUnderMouse)
        case Err(e) =>
          // the loop of `split` has emptied the pile before `getLast` throws
          Threw(t.(piles := t.piles[i := t.piles[i].(cards := [])]), e)
        case Ok(parts) =>
          var t1 := t.(piles := t.piles[i := parts.prefix], movingPile := parts.suffix,
                       isDragging := true, cardUnderMouse := None);
          Done(t1.(isDragging := true, movingPile := t1.movingPile.(x := x, y := y)))
    else
      Done(t.(isDragging := true, movingPile := t.movingPile.(x := x, y := y)))
  }

  /**
   * `mouseReleased`: recompute the row and the card under the pointer and merge the
   * moving pile into that row after the card, or at the front when there is none.
   * `if (isDragging = true)` assigns, so the merge runs on every release, and both of
   * its branches are the same merge. Afterwards the moving pile is empty and
   * `isDragging` is false. Below the fifth row (or above y = -99) `pile[y / 100]`
   * throws before the merge, and the moving pile keeps its cards.
   */
  function Release(t: Table, x: int, y: int): (o: Outcome)
    requires WellFormed(t)
    ensures WellFormed(o.table) && o.table.deck == t.deck
    ensures o.Done? <==> InRows(y)
    ensures o.table.pileUnderMouse == RowOf(y)
    ensures o.Threw? ==> o.fault == IndexOutOfBounds && o.table == t.(pileUnderMouse := RowOf(y))
    ensures o.Done? ==>
              var row := RowOf(y);
              var card := LocateCard(t.piles[row], x, y);
              && o.table.cardUnderMouse == card
              && !o.table.isDragging
              && o.table.movingPile == t.movingPile.(cards := [])
              && o.table.piles == t.piles[row := Merge(t.piles[row], t.movingPile, card).pile]
  {
    var row := RowOf(y);
    var t1 := t.(pileUnderMouse := row);
    match TableLocate(t1, x, y)
    case Err(e) => Threw(t1, e)
    case Ok(card) =>
      var t2 := t1.(cardUnderMouse := card);
      var merged := if card.Some? then Merge(t2.piles[row], t2.movingPile, card)
                    else Merge(t2.piles[row], t2.movingPile, card);
      Done(t2.(piles := t2.piles[row := merged.pile],
               movingPile := merged.addition.(cards := []), isDragging := false))
  }

  /**
   * `mouseClicked`: on a double click with a remembered card, turn over that card and
   * every later card of the remembered row, one `flipCard` at a time. A card missing
   * from the row gives index -1 and `get(-1)` throws before anything is flipped.
   */
  function Click(t: Table, clickCount: int): (o: Outcome)
    requires WellFormed(t)
    ensures WellFormed(o.table)
    ensures o.table == t.(deck := o.table.deck)
    ensures clickCount != 2 || t.cardUnderMouse.None? ==> o == Done(t)
    ensures o.Threw? <==> clickCount == 2 && t.cardUnderMouse.Some?
                          && (!(0 <= t.pileUnderMouse < NPile)
                              || t.cardUnderMouse.value !in t.piles[t.pileUnderMouse].cards)
    ensures o.Threw? ==> o.table == t && o.fault == IndexOutOfBounds
    ensures forall c: CardId :: o.table.deck[c].prototype == t.deck[c].prototype
    ensures o.Done? && clickCount == 2 && t.cardUnderMouse.Some? ==>
              var s := t.piles[t.pileUnderMouse].cards;
              var run := s[IndexOf(s, t.cardUnderMouse)..];
              forall c: CardId :: o.table.deck[c].isFaceUp == (t.deck[c].isFaceUp != (multiset(run)[c] % 2 == 1))
  {
    if clickCount != 2 || t.cardUnderMouse.None? then Done(t)
    else
      var i := t.pileUnderMouse;
      if !(0 <= i < NPile) then Threw(t, IndexOutOfBounds)
      else
        var from := IndexOf(t.piles[i].cards, t.cardUnderMouse);
        if from < 0 then Threw(t, IndexOutOfBounds)
        else Done(t.(deck := FlipRun(t.deck, t.piles[i].cards[from..])))
  }

  /** A pointer event as Swing delivers it. */
  datatype Event = Pressed(x: int, y: int) | Dragged(x: int, y: int) | Released(x: int, y: int) | Clicked(count: int)

  /**
   * The listeners: `CardMouseListener` takes presses, releases and clicks, and
   * `CardMouseMotionListener` takes drags. No event changes a card's rank or suit, and
   * only a click turns cards over.
   */
  function Dispatch(t: Table, e: Event): (o: Outcome)
    requires WellFormed(t)
    ensures WellFormed(o.table)
    ensures forall c: CardId :: o.table.deck[c].prototype == t.deck[c].prototype
    ensures !e.Clicked? ==> o.table.deck == t.deck
  {
    match e
    case Pressed(x, y) => Press(t, x, y)
    case Dragged(x, y) => Drag(t, x, y)
    case Released(x, y) => Release(t, x, y)
    case Clicked(n) => Click(t, n)
  }

  /** From a coherent pointer state no single event loses or duplicates a card. */
  lemma DispatchConserves(t: Table, e: Event)
    requires Coherent(t)
    ensures multiset(Contents(Dispatch(t, e).table)) == multiset(Contents(t))
  {
    match e
    case Pressed(x, y) => PressConserves(t, x, y);
    case Dragged(x, y) => DragConserves(t, x, y);
    case Released(x, y) => ReleaseConserves(t, x, y);
    case Clicked(n) =>
  }

  /**
   * Events handled in arrival order; an exception ends one handler, not the program.
   * However the events run, no card's rank or suit changes.
   */
  function Run(t: Table, es: seq<Event>): (r: Table)
    requires WellFormed(t)
    ensures WellFormed(r)
    ensures forall c: CardId :: r.deck[c].prototype == t.deck[c].prototype
    decreases |es|
  {
    if |es| == 0 then t else Run(Dispatch(t, es[0]).table, es[1..])
  }

  lemma {:induction false} RunAppend(t: Table, a: seq<Event>, b: seq<Event>)
    requires WellFormed(t)
    ensures Run(t, a + b) == Run(Run(t, a), b)
    decreases |a|
  {
    if |a| > 0 {
      assert (a + b)[0] == a[0] && (a + b)[1..] == a[1..] + b;
      RunAppend(Dispatch(t, a[0]).table, a[1..], b);
    } else {
      assert a + b == b;
    }
  }

  /** The cards of two runs of piles, one after the other. */
  lemma {:induction false} FlattenAppend(a: seq<Pile>, b: seq<Pile>)
    ensures Flatten(a + b) == Flatten(a) + Flatten(b)
    decreases |a|
  {
    if |a| == 0 {
      assert a + b == b;
    } else {
      assert a + b == [a[0]] + (a[1..] + b);
      FlattenCons(a[0], a[1..] + b);
      FlattenAppend(a[1..], b);
      Assoc(a[0].cards, Flatten(a[1..]), Flatten(b));
    }
  }

  lemma FlattenCons(p: Pile, ps: seq<Pile>)
    ensures Flatten([p] + ps) == p.cards + Flatten(ps)
  {
    assert ([p] + ps)[0] == p && ([p] + ps)[1..] == ps;
  }

  lemma Assoc(a: seq<CardId>, b: seq<CardId>, c: seq<CardId>)
    ensures a + (b + c) == a + b + c
  {
  }

  /** The cards of pile i sit between those of the rows before it and those after it. */
  lemma FlattenAround(ps: seq<Pile>, i: int)
    requires 0 <= i < |ps|
    ensures Flatten(ps) == Flatten(ps[..i]) + ps[i].cards + Flatten(ps[i + 1..])
  {
    SplitAt(ps, i);
    FlattenAppend(ps[..i], [ps[i]] + ps[i + 1..]);
    FlattenCons(ps[i], ps[i + 1..]);
    Assoc(Flatten(ps[..i]), ps[i].cards, Flatten(ps[i + 1..]));
  }

  lemma SplitAt(ps: seq<Pile>, i: int)
    requires 0 <= i < |ps|
    ensures ps == ps[..i] + ([ps[i]] + ps[i + 1..])
  {
  }

  /** Replacing one pile replaces its cards, and only those, in the table's contents. */
  lemma FlattenUpdate(ps: seq<Pile>, i: int, q: Pile)
    requires 0 <= i < |ps|
    ensures Flatten(ps[i := q]) == Flatten(ps[..i]) + q.cards + Flatten(ps[i + 1..])
    ensures Flatten(ps) == Flatten(ps[..i]) + ps[i].cards + Flatten(ps[i + 1..])
  {
    FlattenAround(ps, i);
    FlattenAround(ps[i := q], i);
    assert ps[i := q][..i] == ps[..i] && ps[i := q][i + 1..] == ps[i + 1..];
  }

  /** A pile's cards are among the table's. */
  lemma {:induction false} FlattenHolds(ps: seq<Pile>, i: int)
    requires 0 <= i < |ps|
    ensures multiset(ps[i].cards) <= multiset(Flatten(ps))
    decreases |ps|
  {
    if i > 0 {
      FlattenHolds(ps[1..], i - 1);
    }
  }

  /** A card that occurs twice is counted twice. */
  lemma Repeated(s: seq<CardId>, a: int, b: int)
    requires 0 <= a < b < |s|
    ensures s[a] == s[b] ==> multiset(s)[s[a]] >= 2
  {
    if s[a] == s[b] {
      assert s == s[..b] + [s[b]] + s[b + 1..];
      assert s[a] in s[..b];
    }
  }

  /** Cancelling a common part from both sides of a multiset equation. */
  lemma AddCancel<T>(a: multiset<T>, b: multiset<T>, c: multiset<T>, e: multiset<T>)
    requires a + b == c + (b + e)
    ensures a == c + e
  {
    forall x ensures a[x] == (c + e)[x] {
      assert (a + b)[x] == (c + (b + e))[x];
    }
  }

  /** Replacing one pile swaps its cards for the new pile's in the table's multiset of cards. */
  lemma ReplacePile(ps: seq<Pile>, i: int, q: Pile)
    requires 0 <= i < |ps|
    ensures multiset(Flatten(ps[i := q])) + multiset(ps[i].cards) == multiset(Flatten(ps)) + multiset(q.cards)
  {
    FlattenUpdate(ps, i, q);
    var before, after := multiset(Flatten(ps[..i])), multiset(Flatten(ps[i + 1..]));
    assert multiset(Flatten(ps[i := q])) == before + multiset(q.cards) + after;
    assert multiset(Flatten(ps)) == before + multiset(ps[i].cards) + after;
  }

  /** Under the invariant no pile holds a card twice. */
  lemma PileDistinct(t: Table, i: int)
    requires Inv(t) && 0 <= i < NPile
    ensures Distinct(t.piles[i].cards)
  {
    var s := t.piles[i].cards;
    FlattenHolds(t.piles, i);
    forall a, b | 0 <= a < b < |s|
      ensures s[a] != s[b]
    {
      Repeated(s, a, b);
      assert multiset(s)[s[a]] <= multiset(Flatten(t.piles))[s[a]] <= multiset(Contents(t))[s[a]] == 1;
    }
  }

  /**
   * A press, from any table, moves no card and remembers a card only from the row it
   * names. The pointer state is coherent afterwards when nothing was being carried.
   */
  lemma PressConserves(t: Table, x: int, y: int)
    requires WellFormed(t)
    ensures Contents(Press(t, x, y).table) == Contents(t)
    ensures var t' := Press(t, x, y).table;
            t'.cardUnderMouse.Some? && 0 <= t'.pileUnderMouse < NPile ==>
              t'.cardUnderMouse.value in t'.piles[t'.pileUnderMouse].cards
    ensures Idle(t) ==> Coherent(Press(t, x, y).table) && Idle(Press(t, x, y).table)
  {
  }

  /** A drag moves the pressed card's run into the moving pile and loses no card. */
  lemma DragConserves(t: Table, x: int, y: int)
    requires Coherent(t)
    ensures Coherent(Drag(t, x, y).table)
    ensures multiset(Contents(Drag(t, x, y).table)) == multiset(Contents(t))
  {
    if t.cardUnderMouse.Some? && 0 <= t.pileUnderMouse < NPile {
      var i := t.pileUnderMouse;
      var parts := Split(t.piles[i], t.cardUnderMouse).value;
      var t' := Drag(t, x, y).table;
      assert t'.piles == t.piles[i := parts.prefix] && t'.movingPile.cards == parts.suffix.cards;
      ReplacePile(t.piles, i, parts.prefix);
      assert multiset(parts.prefix.cards) + multiset(parts.suffix.cards) == multiset(t.piles[i].cards) by {
        assert parts.prefix.cards + parts.suffix.cards == t.piles[i].cards;
      }
      assert Contents(t) == Flatten(t.piles);
      assert Contents(t') == Flatten(t'.piles) + parts.suffix.cards;
      AddCancel(multiset(Flatten(t.piles)), multiset(parts.prefix.cards), multiset(Flatten(t'.piles)),
                multiset(parts.suffix.cards));
    }
  }

  /** Merging a run into one row adds exactly the run's cards and keeps the row's own. */
  lemma MergeIntoRow(ps: seq<Pile>, row: int, moving: Pile, card: Option<CardId>)
    requires 0 <= row < |ps|
    ensures multiset(Flatten(ps[row := Merge(ps[row], moving, card).pile]))
            == multiset(Flatten(ps)) + multiset(moving.cards)
    ensures card.Some? && card.value in ps[row].cards ==> card.value in Merge(ps[row], moving, card).pile.cards
  {
    var m := Merge(ps[row], moving, card);
    ReplacePile(ps, row, m.pile);
    AddCancel(multiset(Flatten(ps[row := m.pile])), multiset(ps[row].cards), multiset(Flatten(ps)),
              multiset(moving.cards));
    if card.Some? && card.value in ps[row].cards {
      assert m.pile.cards[IndexOf(ps[row].cards, card)] == card.value;
    }
  }

  /** A release inside the rows merges every carried card into a fixed pile; outside them nothing moves. */
  lemma ReleaseConserves(t: Table, x: int, y: int)
    requires Coherent(t)
    ensures Coherent(Release(t, x, y).table)
    ensures multiset(Contents(Release(t, x, y).table)) == multiset(Contents(t))
    ensures InRows(y) ==> Idle(Release(t, x, y).table)
  {
    if InRows(y) {
      var row := RowOf(y);
      var card := LocateCard(t.piles[row], x, y);
      var t' := Release(t, x, y).table;
      assert t'.piles == t.piles[row := Merge(t.piles[row], t.movingPile, card).pile];
      MergeIntoRow(t.piles, row, t.movingPile, card);
      assert Contents(t') == Flatten(t'.piles) + [];
    }
  }

  /** A click changes face states only. */
  lemma ClickConserves(t: Table, clickCount: int)
    requires Inv(t)
    ensures Inv(Click(t, clickCount).table)
  {
    var o := Click(t, clickCount);
    assert Contents(o.table) == Contents(t);
  }

  lemma DistinctSuffix(s: seq<CardId>, from: int)
    requires Distinct(s) && 0 <= from <= |s|
    ensures Distinct(s[from..])
  {
    var run := s[from..];
    forall a, b | 0 <= a < b < |run| ensures run[a] != run[b] {
      assert run[a] == s[from + a] && run[b] == s[from + b];
    }
  }

  /**
   * A double click on a remembered card turns over exactly that card and the cards
   * after it in its pile: no earlier card and no card of another pile changes state.
   */
  lemma DoubleClickFlipsRun(t: Table)
    requires Inv(t) && t.cardUnderMouse.Some? && 0 <= t.pileUnderMouse < NPile
    ensures var o := Click(t, 2);
            var s := t.piles[t.pileUnderMouse].cards;
            var run := s[IndexOf(s, t.cardUnderMouse)..];
            && o.Done?
            && run[0] == t.cardUnderMouse.value
            && forall c: CardId :: o.table.deck[c].isFaceUp == (t.deck[c].isFaceUp != (c in run))
  {
    var s := t.piles[t.pileUnderMouse].cards;
    var from := IndexOf(s, t.cardUnderMouse);
    var run: seq<CardId> := s[from..];
    PileDistinct(t, t.pileUnderMouse);
    DistinctSuffix(s, from);
    forall c: CardId ensures multiset(run)[c] % 2 == 1 <==> c in run {
      DistinctCount(run, c);
    }
  }

  /** Turning over a run twice restores every face state. */
  lemma {:induction false} FlipRunTwice(deck: seq<Card>, run: seq<CardId>)
    requires |deck| == DeckSize
    ensures FlipRun(FlipRun(deck, run), run) == deck
  {
    var twice := FlipRun(FlipRun(deck, run), run);
    forall k | 0 <= k < |deck| ensures twice[k] == deck[k] {
      var c: CardId := k;
      assert twice[c].isFaceUp == deck[c].isFaceUp;
    }
  }

  /** A second double click on the same card undoes the first. */
  lemma DoubleClickTwice(t: Table)
    requires Inv(t)
    ensures Click(Click(t, 2).table, 2) == Click(t, 2).(table := t)
  {
    var o := Click(t, 2);
    if o.Done? && o.table != t {
      var s := t.piles[t.pileUnderMouse].cards;
      FlipRunTwice(t.deck, s[IndexOf(s, t.cardUnderMouse)..]);
    }
  }

  /** A gesture: press, any number of drags, release, then any clicks Swing reports. */
  datatype Point = Point(x: int, y: int)
  datatype Gesture = Gesture(press: Point, drags: seq<Point>, release: Point, clickCounts: seq<int>)

  function DragEvents(ps: seq<Point>): (es: seq<Event>)
    ensures |es| == |ps|
    ensures forall k :: 0 <= k < |ps| ==> es[k] == Dragged(ps[k].x, ps[k].y)
  {
    if |ps| == 0 then [] else [Dragged(ps[0].x, ps[0].y)] + DragEvents(ps[1..])
  }

  function ClickEvents(ns: seq<int>): (es: seq<Event>)
    ensures |es| == |ns|
    ensures forall k :: 0 <= k < |ns| ==> es[k] == Clicked(ns[k])
  {
    if |ns| == 0 then [] else [Clicked(ns[0])] + ClickEvents(ns[1..])
  }

  function Events(g: Gesture): seq<Event>
  {
    [Pressed(g.press.x, g.press.y)] + DragEvents(g.drags) + [Released(g.release.x, g.release.y)]
    + ClickEvents(g.clickCounts)
  }

  /** The whole session: the gestures' events one after the other. */
  function SessionEvents(gs: seq<Gesture>): seq<Event>
  {
    if |gs| == 0 then [] else Events(gs[0]) + SessionEvents(gs[1..])
  }

  lemma {:induction false} DragsConserve(t: Table, es: seq<Event>)
    requires Inv(t)
    requires forall k :: 0 <= k < |es| ==> es[k].Dragged?
    ensures Inv(Run(t, es))
    decreases |es|
  {
    if |es| > 0 {
      DragConserves(t, es[0].x, es[0].y);
      DragsConserve(Dispatch(t, es[0]).table, es[1..]);
    }
  }

  lemma {:induction false} ClicksConserve(t: Table, es: seq<Event>)
    requires Inv(t) && Idle(t)
    requires forall k :: 0 <= k < |es| ==> es[k].Clicked?
    ensures Inv(Run(t, es)) && Idle(Run(t, es))
    decreases |es|
  {
    if |es| > 0 {
      ClickConserves(t, es[0].count);
      ClicksConserve(Dispatch(t, es[0]).table, es[1..]);
    }
  }

  /**
   * Conservation over one gesture: when the release falls inside the rows, every card
   * is still on the table exactly once afterwards, and nothing is left in the moving
   * pile. A press outside the rows throws before it remembers a card, and is harmless.
   */
  lemma GestureConserves(t: Table, g: Gesture)
    requires Inv(t) && Idle(t)
    requires InRows(g.release.y)
    ensures Inv(Run(t, Events(g))) && Idle(Run(t, Events(g)))
  {
    var pressed := Pressed(g.press.x, g.press.y);
    var rest := DragEvents(g.drags) + ([Released(g.release.x, g.release.y)] + ClickEvents(g.clickCounts));
    assert Events(g) == [pressed] + rest;
    RunCons(t, pressed, rest);
    PressStep(t, g.press.x, g.press.y);
    DragsThenRelease(Press(t, g.press.x, g.press.y).table, DragEvents(g.drags), g.release, ClickEvents(g.clickCounts));
  }

  /** The drags of a gesture, then its release inside the rows and the clicks after it. */
  lemma DragsThenRelease(t: Table, drags: seq<Event>, release: Point, clicks: seq<Event>)
    requires Inv(t) && InRows(release.y)
    requires forall k :: 0 <= k < |drags| ==> drags[k].Dragged?
    requires forall k :: 0 <= k < |clicks| ==> clicks[k].Clicked?
    ensures Inv(Run(t, drags + ([Released(release.x, release.y)] + clicks)))
    ensures Idle(Run(t, drags + ([Released(release.x, release.y)] + clicks)))
  {
    RunAppend(t, drags, [Released(release.x, release.y)] + clicks);
    DragsConserve(t, drags);
    ReleaseThenClicks(Run(t, drags), release, clicks);
  }

  /** A release inside the rows and the clicks after it. */
  lemma ReleaseThenClicks(t: Table, release: Point, clicks: seq<Event>)
    requires Inv(t) && InRows(release.y)
    requires forall k :: 0 <= k < |clicks| ==> clicks[k].Clicked?
    ensures Inv(Run(t, [Released(release.x, release.y)] + clicks))
    ensures Idle(Run(t, [Released(release.x, release.y)] + clicks))
  {
    RunCons(t, Released(release.x, release.y), clicks);
    ReleaseStep(t, release.x, release.y);
    ClicksConserve(Release(t, release.x, release.y).table, clicks);
  }

  /** Handling one event and then the rest. */
  lemma RunCons(t: Table, e: Event, es: seq<Event>)
    requires WellFormed(t)
    ensures Run(t, [e] + es) == Run(Dispatch(t, e).table, es)
  {
    assert ([e] + es)[0] == e && ([e] + es)[1..] == es;
  }

  /** A press keeps the invariant and carries nothing. */
  lemma PressStep(t: Table, x: int, y: int)
    requires Inv(t) && Idle(t)
    ensures Inv(Press(t, x, y).table) && Idle(Press(t, x, y).table)
  {
    PressConserves(t, x, y);
    KeepsInv(t, Press(t, x, y).table);
  }

  /** A release inside the rows keeps the invariant and leaves nothing in motion. */
  lemma ReleaseStep(t: Table, x: int, y: int)
    requires Inv(t) && InRows(y)
    ensures Inv(Release(t, x, y).table) && Idle(Release(t, x, y).table)
  {
    ReleaseConserves(t, x, y);
    KeepsInv(t, Release(t, x, y).table);
  }

  /** A handler that keeps the pointer state coherent, moves no card off the table and turns none over keeps the invariant. */
  lemma KeepsInv(t: Table, t': Table)
    requires Inv(t) && Coherent(t') && t'.deck == t.deck
    requires multiset(Contents(t')) == multiset(Contents(t))
    ensures Inv(t')
  {
  }

  /** Conservation over a whole session of gestures whose releases fall inside the rows. */
  lemma {:induction false} SessionConserves(t: Table, gs: seq<Gesture>)
    requires Inv(t) && Idle(t)
    requires forall k :: 0 <= k < |gs| ==> InRows(gs[k].release.y)
    ensures Inv(Run(t, SessionEvents(gs))) && Idle(Run(t, SessionEvents(gs)))
    decreases |gs|
  {
    if |gs| > 0 {
      RunAppend(t, Events(gs[0]), SessionEvents(gs[1..]));
      GestureConserves(t, gs[0]);
      SessionConserves(Run(t, Events(gs[0])), gs[1..]);
    }
  }

  /** Cards lo, lo + 1, ..., hi - 1. */
  function Range(lo: int, hi: int): (s: seq<CardId>)
    requires 0 <= lo <= hi <= DeckSize
    ensures |s| == hi - lo
  {
    seq(hi - lo, k requires 0 <= k < hi - lo => lo + k)
  }

  lemma {:induction false} RangeCount(lo: int, hi: int, c: CardId)
    requires 0 <= lo <= hi <= DeckSize
    ensures multiset(Range(lo, hi))[c] == if lo <= c < hi then 1 else 0
    decreases hi - lo
  {
    if lo < hi {
      assert Range(lo, hi) == [lo as CardId] + Range(lo + 1, hi);
      RangeCount(lo + 1, hi, c);
    }
  }

  /** Splitting a run of consecutive cards at card k. */
  lemma SplitRange(lo: int, hi: int, k: int, x: int, y: int)
    requires 0 <= lo <= k < hi <= DeckSize
    ensures Split(Pile(Range(lo, hi), x, y), Some(k as CardId))
            == Ok(Parted(Pile(Range(lo, k), x, y), Pile(Range(k, hi), 0, 0)))
  {
    var s := Range(lo, hi);
    assert s[k - lo] == k;
    var parts := Split(Pile(s, x, y), Some(k as CardId)).value;
    var n := |parts.prefix.cards|;
    assert s == parts.prefix.cards + parts.suffix.cards;
    assert s[n] == parts.suffix.cards[0];
    assert n == k - lo;
    assert parts.prefix.cards == s[..n] && parts.suffix.cards == s[n..];
    assert parts.prefix.cards == Range(lo, k);
    assert parts.suffix.cards == Range(k, hi);
  }

  lemma FlattenFive(ps: seq<Pile>)
    requires |ps| == 5
    ensures Flatten(ps) == ps[0].cards + (ps[1].cards + (ps[2].cards + (ps[3].cards + ps[4].cards)))
  {
    assert ps[4..][1..] == [];
    assert Flatten(ps[4..]) == ps[4].cards;
    assert ps[3..][1..] == ps[4..];
    assert Flatten(ps[3..]) == ps[3].cards + ps[4].cards;
    assert ps[2..][1..] == ps[3..];
    assert Flatten(ps[2..]) == ps[2].cards + (ps[3].cards + ps[4].cards);
    assert ps[1..][1..] == ps[2..];
    assert Flatten(ps[1..]) == ps[1].cards + (ps[2].cards + (ps[3].cards + ps[4].cards));
  }

  /** An empty fixed pile at its row's anchor. */
  function EmptyRow(i: int): Pile
  {
    Pile([], PileX, PileY + RowHeight * i)
  }

  /** `to.append(from.split(from.get(at)))`: the new values of `from` and `to`. */
  function MoveTail(from: Pile, to: Pile, at: int): (r: (Pile, Pile))
    requires 0 <= at < |from.cards|
  {
    var parts := Split(from, Some(from.cards[at])).value;
    (parts.prefix, Append(to, parts.suffix))
  }

  lemma MoveTailRange(lo: int, hi: int, k: int, from: Pile, to: Pile)
    requires 0 <= lo <= k < hi <= DeckSize && from.cards == Range(lo, hi)
    ensures MoveTail(from, to, k - lo) == (from.(cards := Range(lo, k)), to.(cards := to.cards + Range(k, hi)))
  {
    assert from.cards[k - lo] == k;
    SplitRange(lo, hi, k, from.x, from.y);
  }

  /** `pile[1].append(pile[0].split(pile[0].get(42)))`, from the whole deck in pile 0. */
  function DealCut1(): (r: (Pile, Pile))
    ensures r == (Pile(Range(0, 42), PileX, PileY), Pile(Range(42, 52), PileX, PileY + RowHeight))
  {
    var p0 := Pile(Range(0, DeckSize), PileX, PileY);
    MoveTailRange(0, 52, 42, p0, EmptyRow(1));
    MoveTail(p0, EmptyRow(1), 42)
  }

  /** `pile[2].append(pile[0].split(pile[0].get(32)))`. */
  function DealCut2(): (r: (Pile, Pile))
    ensures r == (Pile(Range(0, 32), PileX, PileY), Pile(Range(32, 42), PileX, PileY + 2 * RowHeight))
  {
    var from := DealCut1().0;
    MoveTailRange(0, 42, 32, from, EmptyRow(2));
    MoveTail(from, EmptyRow(2), 32)
  }

  /** `pile[3].append(pile[0].split(pile[0].get(22)))`. */
  function DealCut3(): (r: (Pile, Pile))
    ensures r == (Pile(Range(0, 22), PileX, PileY), Pile(Range(22, 32), PileX, PileY + 3 * RowHeight))
  {
    var from := DealCut2().0;
    MoveTailRange(0, 32, 22, from, EmptyRow(3));
    MoveTail(from, EmptyRow(3), 22)
  }

  /** `pile[4].append(pile[0].split(pile[0].get(12)))`. */
  function DealCut4(): (r: (Pile, Pile))
    ensures r == (Pile(Range(0, 12), PileX, PileY), Pile(Range(12, 22), PileX, PileY + 4 * RowHeight))
  {
    var from := DealCut3().0;
    MoveTailRange(0, 22, 12, from, EmptyRow(4));
    MoveTail(from, EmptyRow(4), 12)
  }

  /** `pile[4].append(pile[3].split(pile[3].get(5)))`. */
  function DealCut5(): (r: (Pile, Pile))
    ensures r == (Pile(Range(22, 27), PileX, PileY + 3 * RowHeight),
                  Pile(Range(12, 22) + Range(27, 32), PileX, PileY + 4 * RowHeight))
  {
    var from := DealCut3().1;
    var to := DealCut4().1;
    MoveTailRange(22, 32, 27, from, to);
    MoveTail(from, to, 5)
  }

  /** The card movements of the constructor, starting from the whole deck in pile 0. */
  function Deal(): (ps: seq<Pile>)
    ensures |ps| == NPile
    ensures ps[0] == Pile(Range(0, 12), PileX, PileY)
    ensures ps[1] == Pile(Range(42, 52), PileX, PileY + RowHeight)
    ensures ps[2] == Pile(Range(32, 42), PileX, PileY + 2 * RowHeight)
    ensures ps[3] == Pile(Range(22, 27), PileX, PileY + 3 * RowHeight)
    ensures ps[4] == Pile(Range(12, 22) + Range(27, 32), PileX, PileY + 4 * RowHeight)
  {
    Rows(DealCut4().0, DealCut1().1, DealCut2().1, DealCut5().0, DealCut5().1)
  }

  /** Five piles, row 0 first. */
  function Rows(p0: Pile, p1: Pile, p2: Pile, p3: Pile, p4: Pile): (ps: seq<Pile>)
    ensures |ps| == NPile
    ensures ps[0] == p0 && ps[1] == p1 && ps[2] == p2 && ps[3] == p3 && ps[4] == p4
  {
    [p0, p1, p2, p3, p4]
  }

  /** Every card is dealt to exactly one pile. */
  lemma DealExactlyOnce()
    ensures ExactlyOnce(Flatten(Deal()))
  {
    DealFlattens();
    DealtExactlyOnce();
  }

  lemma DealtExactlyOnce()
    ensures ExactlyOnce(Dealt())
  {
    forall c: CardId ensures multiset(Dealt())[c] == 1 {
      DealtOnce(c);
    }
  }

  lemma DealFlattens()
    ensures Flatten(Deal()) == Dealt()
  {
    FlattenFive(Deal());
  }

  function Dealt(): seq<CardId>
  {
    Range(0, 12) + (Range(42, 52) + (Range(32, 42) + (Range(22, 27) + (Range(12, 22) + Range(27, 32)))))
  }

  lemma DealtOnce(c: CardId)
    ensures multiset(Dealt())[c] == 1
  {
    RangeCount(0, 12, c); RangeCount(42, 52, c); RangeCount(32, 42, c);
    RangeCount(22, 27, c); RangeCount(12, 22, c); RangeCount(27, 32, c);
    assert multiset(Dealt())[c] == multiset(Range(0, 12))[c] + multiset(Range(42, 52))[c]
      + multiset(Range(32, 42))[c] + multiset(Range(22, 27))[c] + multiset(Range(12, 22))[c]
      + multiset(Range(27, 32))[c];
  }

  /** Turning over the first twelve cards of a face-down deck. */
  lemma FaceUpFirstTwelve(deck: seq<Card>, p: Pile)
    requires |deck| == DeckSize && p.cards == Range(0, 12)
    requires forall c: CardId :: !deck[c].isFaceUp
    ensures forall c: CardId :: Flip(deck, p)[c].isFaceUp <==> c < 12
  {
    assert Distinct(p.cards);
    forall c: CardId ensures c in p.cards <==> c < 12 {
      if c < 12 { assert p.cards[c] == c; }
    }
  }

  /** The dealt piles with nothing in motion hold every card once. */
  lemma DealtTableOnce(t: Table)
    requires t.piles == Deal() && t.movingPile.cards == []
    ensures ExactlyOnce(Contents(t))
  {
    DealExactlyOnce();
    ContentsIdle(t);
  }

  lemma ContentsIdle(t: Table)
    requires Idle(t)
    ensures Contents(t) == Flatten(t.piles)
  {
  }

  /** The table the constructor builds before it turns pile 0 over. */
  lemma DealtTableInv(t: Table)
    requires t.piles == Deal() && t.movingPile == Pile([], 0, 0) && !t.isDragging
    requires t.cardUnderMouse == None && t.pileUnderMouse == 0 && t.deck == NewDeck()
    ensures Inv(t) && Idle(t) && t.piles[0].cards == Range(0, 12)
  {
    DealtTableOnce(t);
  }

  /** Turning a pile over keeps the table invariant: no card moves and none changes rank or suit. */
  lemma FlipKeepsInv(t: Table, p: Pile)
    requires Inv(t)
    ensures Inv(t.(deck := Flip(t.deck, p)))
  {
    assert Contents(t.(deck := Flip(t.deck, p))) == Contents(t);
  }

  /** The dealt table with pile 0 turned over, as the constructor leaves it. */
  lemma TurnFirstPile(t: Table, t': Table)
    requires t.piles == Deal() && t.movingPile == Pile([], 0, 0) && !t.isDragging
    requires t.cardUnderMouse == None && t.pileUnderMouse == 0 && t.deck == NewDeck()
    requires t' == t.(deck := Flip(t.deck, t.piles[0]))
    ensures Inv(t') && Idle(t') && t'.piles == Deal()
    ensures forall c: CardId :: t'.deck[c].isFaceUp <==> c < 12
  {
    DealtTableInv(t);
    FaceUpFirstTwelve(t.deck, t.piles[0]);
    FlipKeepsInv(t, t.piles[0]);
  }

  /**
   * The constructor, given the deck `Card.newDeck()` builds: the deal above, an empty
   * moving pile at (0, 0), no drag, no remembered card, row 0, and the cards of pile 0
   * turned face up. Every card is then on the table exactly once, nothing is in
   * motion, and exactly the twelve cards of pile 0 are face up.
   */
  function InitialTable(freshDeck: seq<Card>): (t: Table)
    requires freshDeck == NewDeck()
    ensures Inv(t) && Idle(t)
    ensures !t.isDragging && t.cardUnderMouse.None? && t.pileUnderMouse == 0
    ensures t.piles == Deal()
    ensures forall c: CardId :: t.deck[c].isFaceUp <==> c < 12
  {
    var dealt := Table(Deal(), Pile([], 0, 0), false, None, 0, freshDeck);
    var t := dealt.(deck := Flip(dealt.deck, dealt.piles[0]));
    TurnFirstPile(dealt, t);
    t
  }
}
