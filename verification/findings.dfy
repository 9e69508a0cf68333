/**
 * Three places where CardPile.java and CardTable.java do something other than what
 * their own comments promise. For each, the code as written (in CardPiles and
 * CardTables) is shown to misbehave on a concrete input, and a corrected definition
 * is given with the promised property proved about it.
 */
module Findings {
  import opened Wrappers
  import opened Cards
  import opened CardPiles
  import opened CardTables

  // ---------------------------------------------------------------------------
  // insertAfter: "New card goes after this one"
  // ---------------------------------------------------------------------------

  /** As written, `insertAfter(card, mark)` puts the card in front of the mark. */
  lemma InsertAfterPutsCardBefore()
    ensures InsertAfter(Pile([7], 0, 0), 3, Some(7)) == Ok(Pile([3, 7], 0, 0))
  {
    assert IndexOf([7], Some(7)) == 0;
    assert [7][..0] + [3] + [7][0..] == [3, 7];
  }

  /**
   * `insertAfter` as its comment describes it, `add(indexOf(mark) + 1, card)`: the
   * card lands right after the first occurrence of the mark, and in front of the pile
   * when the mark is null or absent (the index is then 0, as in `merge`).
   */
  function InsertAfterMark(p: Pile, card: CardId, mark: Option<CardId>): (r: Pile)
    ensures |r.cards| == |p.cards| + 1 && r.x == p.x && r.y == p.y
    ensures mark.Some? && mark.value in p.cards ==>
              var i := IndexOf(p.cards, mark);
              && r.cards[i] == mark.value && r.cards[i + 1] == card
              && r.cards[..i + 1] + r.cards[i + 2..] == p.cards
    ensures mark.None? || mark.value !in p.cards ==> r.cards == [card] + p.cards
  {
    var at := IndexOf(p.cards, mark) + 1;
    var cards := p.cards[..at] + [card] + p.cards[at..];
    Spliced(p.cards, at, [card], cards);
    assert at == 0 ==> p.cards[..at] == [] && p.cards[at..] == p.cards;
    p.(cards := cards)
  }

  /** Wherever the mark is present and is not the card itself, the two versions disagree. */
  lemma InsertAfterMisplaces(p: Pile, card: CardId, mark: Option<CardId>)
    requires mark.Some? && mark.value in p.cards && card != mark.value
    ensures InsertAfter(p, card, mark).Ok?
    ensures InsertAfter(p, card, mark).value != InsertAfterMark(p, card, mark)
  {
    var i := IndexOf(p.cards, mark);
    assert InsertAfter(p, card, mark).value.cards[i] == card;
    assert InsertAfterMark(p, card, mark).cards[i] == mark.value;
  }

  /** The corrected single-card insertion is `merge` of a one-card pile. */
  lemma InsertAfterMarkIsMerge(p: Pile, card: CardId, mark: Option<CardId>)
    ensures InsertAfterMark(p, card, mark) == Merge(p, Pile([card], 0, 0), mark).pile
  {
    var at := IndexOf(p.cards, mark) + 1;
    assert Merge(p, Pile([card], 0, 0), mark).pile.cards == InsertRunAt(p.cards, at, [card]);
  }

  /**
   * `insertAfter(insert, mark)` as its comment describes it, `addAll(indexOf(mark) + 1,
   * insert)`: the run follows the first occurrence of the mark, in order.
   */
  function InsertPileAfterMark(p: Pile, insert: Pile, mark: Option<CardId>): (r: Pile)
    ensures |r.cards| == |p.cards| + |insert.cards| && r.x == p.x && r.y == p.y
    ensures mark.Some? && mark.value in p.cards ==>
              var i, n := IndexOf(p.cards, mark), |insert.cards|;
              && r.cards[i] == mark.value
              && r.cards[i + 1..i + 1 + n] == insert.cards
              && r.cards[..i + 1] + r.cards[i + 1 + n..] == p.cards
    ensures mark.None? || mark.value !in p.cards ==> r.cards == insert.cards + p.cards
  {
    var at := IndexOf(p.cards, mark) + 1;
    var cards := p.cards[..at] + insert.cards + p.cards[at..];
    Spliced(p.cards, at, insert.cards, cards);
    assert at == 0 ==> p.cards[..at] == [] && p.cards[at..] == p.cards;
    p.(cards := cards)
  }

  /** As written, the pile overload also puts the run in front of the mark. */
  lemma InsertPileAfterPutsRunBefore()
    ensures InsertPileAfter(Pile([7], 0, 0), Pile([3, 4], 0, 0), Some(7)) == Ok(Pile([3, 4, 7], 0, 0))
  {
    assert IndexOf([7], Some(7)) == 0;
    assert [7][..0] + [3, 4] + [7][0..] == [3, 4, 7];
  }

  /** The corrected run insertion is what `merge` does with the run, without draining it. */
  lemma InsertPileAfterMarkIsMerge(p: Pile, insert: Pile, mark: Option<CardId>)
    ensures InsertPileAfterMark(p, insert, mark) == Merge(p, insert, mark).pile
  {
    var at := IndexOf(p.cards, mark) + 1;
    assert Merge(p, insert, mark).pile.cards == InsertRunAt(p.cards, at, insert.cards);
  }

  // ---------------------------------------------------------------------------
  // split(null): "If mark is null, entire pile is moved"
  // ---------------------------------------------------------------------------

  /** As written, `split(null)` empties the receiver and then throws, moving nothing. */
  lemma SplitNullThrows()
    ensures Split(Pile([5, 6], 2, 2), None) == Err(NoSuchElement)
  {
  }

  /** `split` as its comment describes it: a null mark moves the entire pile. */
  function SplitOrAll(p: Pile, mark: Option<CardId>): (r: Result<Parted, Fault>)
    ensures r.Ok? <==> mark.None? || mark.value in p.cards
    ensures mark.Some? ==> r == Split(p, mark)
    ensures mark.None? ==> r.value.prefix.cards == [] && r.value.suffix.cards == p.cards
    ensures r.Ok? ==> r.value.prefix.x == p.x && r.value.prefix.y == p.y
                      && r.value.suffix.x == 0 && r.value.suffix.y == 0
  {
    if mark.None? then Ok(Parted(p.(cards := []), Pile(p.cards, 0, 0)))
    else Split(p, mark)
  }

  /** Whatever the mark, appending what the corrected `split` returns restores the pile. */
  lemma SplitOrAllThenAppend(p: Pile, mark: Option<CardId>)
    requires SplitOrAll(p, mark).Ok?
    ensures Append(SplitOrAll(p, mark).value.prefix, SplitOrAll(p, mark).value.suffix) == p
  {
    if mark.Some? {
      SplitThenAppend(p, mark);
    }
  }

  // ---------------------------------------------------------------------------
  // mouseReleased below the rows: "places cards in nearest pile"
  // ---------------------------------------------------------------------------

  /** Press a card of pile 0, drag, release below the table, press a card of pile 1, drag. */
  function LosingEvents(): seq<Event>
  {
    [Pressed(10, 10), Dragged(40, 40), Released(40, 550), Pressed(10, 110), Dragged(40, 40)]
  }

  /** A point over a pile's first card and left of its second hits the first card. */
  lemma LocateFirst(p: Pile, x: int, y: int)
    requires |p.cards| > 0 && Hit(p, 0, x, y) && x < p.x + OffsetX
    ensures LocateCard(p, x, y) == Some(p.cards[0])
  {
    var r := LocateCard(p, x, y);
    assert r.Some?;
    var k :| 0 <= k < |p.cards| && p.cards[k] == r.value && Hit(p, k, x, y);
    assert k == 0;
  }

  /** The table after the first press and drag: pile 0 is empty, its twelve cards carried. */
  lemma LosingFirstDrag(t: Table)
    requires WellFormed(t) && t.piles[0] == Pile(Range(0, 12), PileX, PileY)
    ensures var t' := Drag(Press(t, 10, 10).table, 40, 40).table;
            && WellFormed(t')
            && t'.piles[0].cards == [] && (forall j :: 1 <= j < NPile ==> t'.piles[j] == t.piles[j])
            && t'.movingPile.cards == Range(0, 12)
            && t'.cardUnderMouse.None? && t'.deck == t.deck
  {
    var t1 := t.(pileUnderMouse := 0, cardUnderMouse := Some(0 as CardId));
    PressFirstCard(t, 0, 10, 10);
    SplitRange(0, 12, 0, PileX, PileY);
    DragSplits(t1, 40, 40);
    assert Range(0, 0) == [];
  }

  /** Pressing over the first card of row `row`, left of the second, remembers that card. */
  lemma PressFirstCard(t: Table, row: int, x: int, y: int)
    requires WellFormed(t) && 0 <= row < NPile && RowOf(y) == row
    requires |t.piles[row].cards| > 0 && Hit(t.piles[row], 0, x, y) && x < t.piles[row].x + OffsetX
    ensures Press(t, x, y) == Done(t.(pileUnderMouse := row, cardUnderMouse := Some(t.piles[row].cards[0])))
  {
    LocateFirst(t.piles[row], x, y);
  }

  /** A drag with a remembered card of its row moves the split-off run into the moving pile. */
  lemma DragSplits(t: Table, x: int, y: int)
    requires WellFormed(t) && t.cardUnderMouse.Some? && 0 <= t.pileUnderMouse < NPile
    requires Split(t.piles[t.pileUnderMouse], t.cardUnderMouse).Ok?
    ensures var parts := Split(t.piles[t.pileUnderMouse], t.cardUnderMouse).value;
            Drag(t, x, y) == Done(t.(piles := t.piles[t.pileUnderMouse := parts.prefix],
                                     movingPile := parts.suffix.(x := x, y := y),
                                     isDragging := true, cardUnderMouse := None))
  {
  }

  /** The second press and drag, after the release below the table changed nothing. */
  lemma LosingSecondDrag(t: Table)
    requires WellFormed(t) && t.piles[1] == Pile(Range(42, 52), PileX, PileY + RowHeight)
    requires t.cardUnderMouse.None?
    ensures var t' := Drag(Press(Release(t, 40, 550).table, 10, 110).table, 40, 40).table;
            && |t'.piles| == NPile
            && t'.piles[1].cards == [] && (forall j :: 0 <= j < NPile && j != 1 ==> t'.piles[j] == t.piles[j])
            && t'.movingPile.cards == Range(42, 52)
  {
    var t3 := Release(t, 40, 550).table;
    assert t3 == t.(pileUnderMouse := 5);
    LocateFirst(t3.piles[1], 10, 110);
    SplitRange(42, 52, 42, PileX, PileY + RowHeight);
  }

  /**
   * The sequence above, from the table the constructor builds, loses the twelve cards of
   * pile 0: the release below the table throws before the merge, the moving pile keeps
   * them, and the next drag replaces the moving pile.
   */
  lemma ReleaseBelowRowsLosesCards()
    ensures var t := Run(InitialTable(NewDeck()), LosingEvents());
            (forall c: CardId :: c < 12 ==> multiset(Contents(t))[c] == 0) && !Inv(t)
  {
    LosingRun(InitialTable(NewDeck()));
    assert multiset(Contents(Run(InitialTable(NewDeck()), LosingEvents())))[0 as CardId] == 0;
  }

  /** The sequence above on any table dealt as the constructor deals. */
  lemma LosingRun(t: Table)
    requires WellFormed(t) && t.piles == Deal()
    ensures forall c: CardId :: c < 12 ==> multiset(Contents(Run(t, LosingEvents())))[c] == 0
  {
    LosingTrace(t);
    LostFromRows(Run(t, LosingEvents()));
  }

  /** Where the cards of piles 0 and 1 are after the sequence above. */
  lemma LosingTrace(t: Table)
    requires WellFormed(t)
    requires t.piles[0] == Pile(Range(0, 12), PileX, PileY)
    requires t.piles[1] == Pile(Range(42, 52), PileX, PileY + RowHeight)
    ensures var t' := Run(t, LosingEvents());
            && |t'.piles| == NPile && t'.piles[0].cards == [] && t'.piles[1].cards == []
            && t'.piles[2] == t.piles[2] && t'.piles[3] == t.piles[3] && t'.piles[4] == t.piles[4]
            && t'.movingPile.cards == Range(42, 52)
  {
    var t2 := Drag(Press(t, 10, 10).table, 40, 40).table;
    LosingFirstDrag(t);
    var t5 := Drag(Press(Release(t2, 40, 550).table, 10, 110).table, 40, 40).table;
    LosingSecondDrag(t2);
    assert t5.piles[0] == t2.piles[0];
    LosingHandlers(t);
    assert Run(t, LosingEvents()) == t5;
  }

  /** The handlers the sequence above calls, in order. */
  lemma LosingHandlers(t: Table)
    requires WellFormed(t)
    ensures var t2 := Drag(Press(t, 10, 10).table, 40, 40).table;
            Run(t, LosingEvents()) == Drag(Press(Release(t2, 40, 550).table, 10, 110).table, 40, 40).table
  {
    var es := LosingEvents();
    assert es[0] == Pressed(10, 10) && es[1] == Dragged(40, 40) && es[2] == Released(40, 550);
    assert es[3] == Pressed(10, 110) && es[4] == Dragged(40, 40);
    RunFive(t, es);
  }

  /** Five events handled in order. */
  lemma RunFive(t: Table, es: seq<Event>)
    requires WellFormed(t) && |es| == 5
    ensures Run(t, es) == Dispatch(Dispatch(Dispatch(Dispatch(Dispatch(t, es[0]).table, es[1]).table,
                                   es[2]).table, es[3]).table, es[4]).table
  {
    var t1 := Dispatch(t, es[0]).table;
    var t2 := Dispatch(t1, es[1]).table;
    var t3 := Dispatch(t2, es[2]).table;
    var t4 := Dispatch(t3, es[3]).table;
    RunStep(t, es);
    RunStep(t1, es[1..]);
    RunStep(t2, es[2..]);
    RunStep(t3, es[3..]);
    RunStep(t4, es[4..]);
  }

  /** Handling the first event of a non-empty sequence, then the rest. */
  lemma RunStep(t: Table, es: seq<Event>)
    requires WellFormed(t) && |es| > 0
    ensures Run(t, es) == Run(Dispatch(t, es[0]).table, es[1..])
  {
  }

  /** The table left by the sequence above holds no card 0. */
  lemma LostFromRows(t: Table)
    requires |t.piles| == 5 && t.piles[0].cards == [] && t.piles[1].cards == []
    requires t.piles[2].cards == Range(32, 42) && t.piles[3].cards == Range(22, 27)
    requires t.piles[4].cards == Range(12, 22) + Range(27, 32)
    requires t.movingPile.cards == Range(42, 52)
    ensures forall c: CardId :: c < 12 ==> multiset(Contents(t))[c] == 0
  {
    FlattenFive(t.piles);
    forall c: CardId | c < 12 ensures multiset(Contents(t))[c] == 0 {
      RangeCount(32, 42, c); RangeCount(22, 27, c); RangeCount(12, 22, c);
      RangeCount(27, 32, c); RangeCount(42, 52, c);
    }
  }

  /** The row a release should use: `y / 100` clamped to the five rows. */
  function NearestRow(y: int): (row: int)
    ensures 0 <= row < NPile
    ensures InRows(y) ==> row == RowOf(y)
    ensures y >= NPile * RowHeight ==> row == NPile - 1
    ensures y <= -RowHeight ==> row == 0
  {
    var r := RowOf(y);
    if r < 0 then 0 else if r >= NPile then NPile - 1 else r
  }

  /**
   * `mouseReleased` as its comment describes it: the carried run goes into the nearest
   * pile, so a release below or above the table no longer throws. Inside the rows it is
   * the handler as written.
   */
  function ReleaseNearest(t: Table, x: int, y: int): (r: Table)
    requires WellFormed(t)
    ensures WellFormed(r) && r.deck == t.deck
    ensures InRows(y) ==> r == Release(t, x, y).table
    ensures !r.isDragging && r.movingPile.cards == [] && r.pileUnderMouse == NearestRow(y)
    ensures var row := NearestRow(y);
            var card := LocateCard(t.piles[row], x, y);
            && r.cardUnderMouse == card
            && r.movingPile == t.movingPile.(cards := [])
            && r.piles == t.piles[row := Merge(t.piles[row], t.movingPile, card).pile]
  {
    var row := NearestRow(y);
    var card := LocateCard(t.piles[row], x, y);
    var merged := Merge(t.piles[row], t.movingPile, card);
    t.(pileUnderMouse := row, cardUnderMouse := card, piles := t.piles[row := merged.pile],
       movingPile := merged.addition.(cards := []), isDragging := false)
  }

  /** Wherever the pointer is released, every carried card lands in a fixed pile. */
  lemma ReleaseNearestConserves(t: Table, x: int, y: int)
    requires Coherent(t)
    ensures Coherent(ReleaseNearest(t, x, y)) && Idle(ReleaseNearest(t, x, y))
    ensures multiset(Contents(ReleaseNearest(t, x, y))) == multiset(Contents(t))
  {
    var row := NearestRow(y);
    var card := LocateCard(t.piles[row], x, y);
    var t' := ReleaseNearest(t, x, y);
    MergeIntoRow(t.piles, row, t.movingPile, card);
    assert Contents(t') == Flatten(t'.piles) + [];
  }

  /** Event dispatch with the corrected release handler. */
  function DispatchNearest(t: Table, e: Event): (o: Outcome)
    requires WellFormed(t)
    ensures WellFormed(o.table)
    ensures !e.Released? || InRows(e.y) ==> o == Dispatch(t, e)
  {
    if e.Released? then Done(ReleaseNearest(t, e.x, e.y)) else Dispatch(t, e)
  }

  function RunNearest(t: Table, es: seq<Event>): (r: Table)
    requires WellFormed(t)
    ensures WellFormed(r)
    decreases |es|
  {
    if |es| == 0 then t else RunNearest(DispatchNearest(t, es[0]).table, es[1..])
  }

  /** No release outside the rows in `es`. */
  predicate ReleasesInRows(es: seq<Event>)
  {
    forall k :: 0 <= k < |es| && es[k].Released? ==> InRows(es[k].y)
  }

  /** When every release falls inside the rows, the corrected handlers behave as written. */
  lemma {:induction false} RunNearestAgrees(t: Table, es: seq<Event>)
    requires WellFormed(t) && ReleasesInRows(es)
    ensures RunNearest(t, es) == Run(t, es)
    decreases |es|
  {
    if |es| > 0 {
      assert DispatchNearest(t, es[0]) == Dispatch(t, es[0]);
      RunNearestAgrees(Dispatch(t, es[0]).table, es[1..]);
    }
  }

  lemma {:induction false} RunNearestAppend(t: Table, a: seq<Event>, b: seq<Event>)
    requires WellFormed(t)
    ensures RunNearest(t, a + b) == RunNearest(RunNearest(t, a), b)
    decreases |a|
  {
    if |a| > 0 {
      assert (a + b)[0] == a[0] && (a + b)[1..] == a[1..] + b;
      RunNearestAppend(DispatchNearest(t, a[0]).table, a[1..], b);
    } else {
      assert a + b == b;
    }
  }

  /** The press and drags of a gesture, which contain no release. */
  lemma PressThenDrags(t: Table, press: Point, drags: seq<Event>)
    requires Inv(t) && Idle(t)
    requires forall k :: 0 <= k < |drags| ==> drags[k].Dragged?
    ensures Inv(RunNearest(t, [Pressed(press.x, press.y)] + drags))
  {
    var es := [Pressed(press.x, press.y)] + drags;
    assert ReleasesInRows(es) by {
      forall k | 0 <= k < |es| ensures !es[k].Released? {
        if k > 0 { assert es[k] == drags[k - 1]; }
      }
    }
    RunNearestAgrees(t, es);
    RunCons(t, Pressed(press.x, press.y), drags);
    PressStep(t, press.x, press.y);
    DragsConserve(Press(t, press.x, press.y).table, drags);
  }

  /** The corrected release and the clicks after it. */
  lemma ReleaseNearestThenClicks(t: Table, release: Point, clicks: seq<Event>)
    requires Inv(t)
    requires forall k :: 0 <= k < |clicks| ==> clicks[k].Clicked?
    ensures Inv(RunNearest(t, [Released(release.x, release.y)] + clicks))
    ensures Idle(RunNearest(t, [Released(release.x, release.y)] + clicks))
  {
    var es := [Released(release.x, release.y)] + clicks;
    var t' := ReleaseNearest(t, release.x, release.y);
    assert es[0] == Released(release.x, release.y) && es[1..] == clicks;
    assert RunNearest(t, es) == RunNearest(t', clicks);
    ReleaseNearestConserves(t, release.x, release.y);
    KeepsInv(t, t');
    assert ReleasesInRows(clicks) by {
      forall k | 0 <= k < |clicks| ensures !clicks[k].Released? {
        assert clicks[k].Clicked?;
      }
    }
    RunNearestAgrees(t', clicks);
    ClicksConserve(t', clicks);
  }

  /** With the corrected release, any gesture at all keeps every card on the table once. */
  lemma GestureConservesNearest(t: Table, g: Gesture)
    requires Inv(t) && Idle(t)
    ensures Inv(RunNearest(t, Events(g))) && Idle(RunNearest(t, Events(g)))
  {
    var head := [Pressed(g.press.x, g.press.y)] + DragEvents(g.drags);
    var tail := [Released(g.release.x, g.release.y)] + ClickEvents(g.clickCounts);
    assert Events(g) == head + tail;
    RunNearestAppend(t, head, tail);
    PressThenDrags(t, g.press, DragEvents(g.drags));
    ReleaseNearestThenClicks(RunNearest(t, head), g.release, ClickEvents(g.clickCounts));
  }

  /** With the corrected release, a whole session of gestures keeps every card on the table once. */
  lemma {:induction false} SessionConservesNearest(t: Table, gs: seq<Gesture>)
    requires Inv(t) && Idle(t)
    ensures Inv(RunNearest(t, SessionEvents(gs))) && Idle(RunNearest(t, SessionEvents(gs)))
    decreases |gs|
  {
    if |gs| > 0 {
      RunNearestAppend(t, Events(gs[0]), SessionEvents(gs[1..]));
      GestureConservesNearest(t, gs[0]);
      SessionConservesNearest(RunNearest(t, Events(gs[0])), gs[1..]);
    }
  }
}
