# CardDisplay in Dafny

A model of the core of CardDisplay, a small Swing program that shows a deck of
playing cards on a green table with five fixed piles, one per 100-pixel row. The
user presses a card and drags it, together with every card above it in its pile,
then releases the run into the row under the pointer. A double click turns that
card and every card above it over.

The model follows the three classes of the core:

- `Cards` (`cards.dfy`), after `Card.java`:
  - ranks and suits;
  - the 52-slot prototype deck built by the static initializer;
  - `newDeck`, `flipCard` and `toString`.
  A card is identified by its position `0..51` in the one deck the program
  creates. The table keeps the face state of card `k` at position `k` of a
  `deck` sequence.
- `CardPiles` (`card_piles.dfy`), after `CardPile.java`. A pile is a sequence of
  card identifiers anchored at `(x, y)`. It has:
  - `insertBefore`/`insertAfter` for one card and for a pile;
  - `flip`, `split`, `merge` and `append`;
  - `locateCard`, the hit test that picks the topmost card under a point.
  Java mutates the receiver in place; each model function returns the new values
  of the piles it changes. An exception becomes a `Result` error: `Fault` is
  `NoSuchElement` or `IndexOutOfBounds`.
- `CardTables` (`card_table.dfy`), after `CardTable.java`. It has:
  - the table state;
  - the constructor's deal;
  - `getPile`, `setPile` and `locateCard`;
  - the four mouse handlers.
  A handler returns `Done(table)`, or `Threw(table, fault)` with the state it had
  written before the exception. Swing keeps dispatching events after an uncaught
  exception, and `Run` handles a sequence of events that way.
- `Findings` (`findings.dfy`): three places where the code does something other
  than what its own comments promise. Each has the behaviour as written and a
  corrected definition.

Java's `y / 100` truncates toward zero, so `TruncDiv` models it explicitly. A
press or release at a height outside -99..499 indexes past the pile array and
throws.

The main invariant is `CardTables.Inv`:
- each of the 52 cards is on the table exactly once, in a fixed pile or in the
  moving pile;
- no card's rank or suit ever changes;
- a remembered card with an in-range row lies in that row's pile, and nothing
  is being carried while a card is remembered (the drag that splits the card
  off replaces the moving pile).

The constructor establishes `Inv`. Every drag, every click and every release
inside the rows keeps it. A press from any table moves no card and remembers
only a card of the row it names. It keeps `Inv` when nothing is being carried,
which holds after every release inside the rows. Any session of gestures whose
releases fall inside the rows ends with every card in a fixed pile.

Where the comments and the code disagree, the model follows the code:
- `split(null)` throws instead of moving the whole pile.
- `insertAfter` inserts before the mark.
- `insertBefore(CardPile, …)` and `append` copy the argument rather than emptying it.
- `getPile` returns null for an index out of range, not for an empty pile.
- `if (isDragging = true)` assigns, so every drag sets `isDragging` and every
  release merges.
- The constructor deals the deck into all five piles; the class comment says
  the other piles start empty.

## Model

| member | source | states |
|---|---|---|
| Cards.RankAt | Card.java:121-122 | `Rank.values()[i]` is the rank whose ordinal is `i` |
| Cards.SuitAt | Card.java:127 | `Suit.values()[j]` is the suit whose ordinal is `j` |
| Cards.OrdinalsRoundTrip | Card.java:121-127 | ordinals and `values()` are inverse to each other |
| Cards.ProtoAt | Card.java:27-28 | the prototype in slot `k` is the one whose slot index `i + 13 j` is `k` |
| Cards.ProtoIndexBijective | Card.java:22-30 | every (rank, suit) pair owns exactly one of the 52 slots: the slot index is injective and `ProtoAt` inverts it |
| Cards.BuildProtoDeck | Card.java:20-31 | the nested loops write each slot exactly once, into an empty slot, and leave no slot empty; slot `k` ends up holding `ProtoAt(k)`, the prototype a new deck puts on card `k` |
| Cards.FlipCard | Card.java:45-47 | `flipCard` negates the orientation and keeps the final prototype |
| Cards.FlipCardTwice | Card.java:45-47 | turning a card over twice restores it |
| Cards.NewDeck | Card.java:75-81 | `newDeck` gives 52 face-down cards, card `k` on prototype `k` |
| Cards.NewDeckHasEachPrototypeOnce | Card.java:75-81 | a new deck holds every (rank, suit) pair, and no two of its cards share one |
| Cards.ParseCardText | Card.java:60-62 | a parsed text is exactly `RANK + " of " + SUIT` of the prototype it returns |
| Cards.CardText | Card.java:60-62 | `toString` loses nothing: reading its text back gives exactly the card's rank and suit |
| Cards.TextParsesBack | Card.java:60-62 | the rank's and the suit's names joined by " of " parse back to that rank and suit |
| CardPiles.IndexOf | CardPile.java:59 | `indexOf` is the first position of the mark, or -1 exactly when the mark is null or absent |
| CardPiles.LastIndexOf | CardPile.java:125-130 | the backwards scan of `split` stops at the last occurrence of the mark; -1 exactly when it is absent |
| CardPiles.Split | CardPile.java:118-132 | succeeds exactly when the mark is in the pile. The receiver keeps the cards before the mark's last occurrence; the result, at (0, 0), starts with the mark and holds the rest in order; together they are the old pile. A null or absent mark gives NoSuchElement |
| CardPiles.SplitInPlace | CardPile.java:118-132 | the Java loop computes `Split`; on a null or absent mark it empties the receiver before throwing |
| CardPiles.SplitThenAppend | CardPile.java:118-160 | appending what `split` returns to what it leaves restores the pile |
| CardPiles.InsertRunAt | CardPile.java:142-146 | adding each `removeLast()` at one fixed index puts the run there in its original order |
| CardPiles.Merge | CardPile.java:141-148 | the run goes right after the first occurrence of the mark, or in front when the mark is null or absent. The pile's own cards keep their order, the multiset of cards is the sum of both piles, and the addition is drained |
| CardPiles.SplitThenMerge | CardPile.java:118-148 | in a pile without repeats, merging the split-off run back after the last kept card restores the pile |
| CardPiles.InsertBefore | CardPile.java:58-61 | the card lands immediately before the mark's first occurrence and the rest is unchanged; a null or absent mark throws IndexOutOfBounds |
| CardPiles.InsertAfter | CardPile.java:69-73 | behaves exactly as `insertBefore` |
| CardPiles.InsertPileBefore | CardPile.java:81-84 | the run lands, in order, immediately before the mark's first occurrence; a null or absent mark throws |
| CardPiles.InsertPileAfter | CardPile.java:92-95 | behaves exactly as the pile overload of `insertBefore` |
| CardPiles.Append | CardPile.java:158-160 | the suffix's cards follow the pile's own, the anchor stays, and an empty suffix changes nothing |
| CardPiles.FlipRun | CardPile.java:103-108 | turning the cards of a run over one at a time leaves a card changed exactly when it occurs an odd number of times; no rank or suit changes |
| CardPiles.Flip | CardPile.java:103-108 | for a pile without repeats, exactly the pile's cards change orientation |
| CardPiles.FlipTwice | CardPile.java:103-108 | flipping the same pile twice restores every card |
| CardPiles.LocateCard | CardPile.java:188-199 | the result is null exactly when no card's box contains the point; otherwise it is a hit card with no hit card above it |
| CardPiles.LocateCardScan | CardPile.java:188-199 | the Java loop, which moves the drawing position card by card, finds the same card as `LocateCard` |
| CardTables.TruncDiv | CardTable.java:102 | `y / 100` rounds toward zero, for negative `y` too |
| CardTables.RowOf | CardTable.java:102 | the row is one of the five exactly when `-100 < y < 500` |
| CardTables.GetPile | CardTable.java:159-167 | the pile of row `i`, or null exactly when `i` is outside 0..4 |
| CardTables.SetPile | CardTable.java:176-182 | stores the pile re-anchored at (2, 2 + 100 i); outside 0..4 nothing changes; other rows and fields are untouched |
| CardTables.GetAfterSet | CardTable.java:159-182 | reading a row back after storing it gives the re-anchored pile, and other rows are unchanged |
| CardTables.TableLocate | CardTable.java:244-246 | the topmost card of row `y / 100` under the point, or IndexOutOfBounds exactly when `y` is outside the rows |
| CardTables.Press | CardTable.java:101-104 | records the row and the topmost card under the pointer; outside the rows it throws after recording the row |
| CardTables.PressConserves | CardTable.java:101-104 | from any table a press moves no card and remembers only a card of the row it names; from a table carrying nothing it leaves the pointer state coherent |
| CardTables.Drag | CardTable.java:137-150 | with a remembered card, splits its last occurrence and every later card into the moving pile and forgets it; the split pile keeps its anchor and the row stays remembered. Every drag then sets `isDragging` and moves the moving pile to the pointer. A split that throws leaves the row empty and changes nothing else; a remembered row outside 0..4 throws and changes nothing |
| CardTables.DragConserves | CardTable.java:137-150 | from a coherent state a drag loses no card: the table holds the same multiset of cards |
| CardTables.Release | CardTable.java:112-126 | inside the rows, merges the moving pile after the card under the pointer (in front if none), empties the moving pile at its anchor and clears `isDragging`; outside the rows it throws before the merge and keeps the moving pile |
| CardTables.ReleaseConserves | CardTable.java:112-126 | a release loses no card; inside the rows it leaves nothing in motion |
| CardTables.Click | CardTable.java:79-98 | only a double click with a remembered card changes anything, and only face states change, never a rank or suit. It throws, changing nothing, exactly when the remembered row is outside 0..4 or the card is missing from it; otherwise each card turns once per occurrence from the remembered card to the end of its pile |
| CardTables.ClickConserves | CardTable.java:79-98 | a click keeps the table invariant |
| CardTables.Dispatch | CardTable.java:72-78 | presses, releases and clicks go to the mouse listener's handlers and drags to the motion listener's; no event changes a rank or suit, and only a click turns a card over |
| CardTables.DispatchConserves | CardTable.java:79-150 | from a coherent pointer state no single event loses or duplicates a card |
| CardTables.Run | CardTable.java:72-78 | events are handled in arrival order and an exception ends only its own handler; no sequence of events changes a card's rank or suit |
| CardTables.DoubleClickFlipsRun | CardTable.java:87-93 | a double click turns over exactly the remembered card and the cards after it in its pile |
| CardTables.DoubleClickTwice | CardTable.java:79-98 | a second double click on the same card undoes the first |
| CardTables.GestureConserves | CardTable.java:101-150 | press, drags, a release inside the rows and clicks keep every card on the table exactly once and leave nothing in motion |
| CardTables.SessionConserves | CardTable.java:101-150 | any sequence of such gestures keeps the table invariant |
| CardTables.SplitRange | CardPile.java:118-132 | splitting a run of consecutive cards at card `k` leaves the cards below `k` and returns `k` onward |
| CardTables.DealCut1 | CardTable.java:65 | cards 42..51 move to pile 1 and 0..41 stay in pile 0 |
| CardTables.DealCut2 | CardTable.java:66 | cards 32..41 move to pile 2 |
| CardTables.DealCut3 | CardTable.java:67 | cards 22..31 move to pile 3 |
| CardTables.DealCut4 | CardTable.java:68 | cards 12..21 move to pile 4 and 0..11 stay in pile 0 |
| CardTables.DealCut5 | CardTable.java:69 | cards 27..31 move from pile 3 to the end of pile 4 |
| CardTables.Deal | CardTable.java:55-69 | the five piles the constructor deals, each at its row's anchor |
| CardTables.DealExactlyOnce | CardTable.java:55-69 | the deal puts every one of the 52 cards in exactly one pile |
| CardTables.FaceUpFirstTwelve | CardTable.java:70 | turning pile 0 over makes exactly cards 0..11 face up |
| CardTables.InitialTable | CardTable.java:54-70 | the constructor's table holds the deal, satisfies the invariant, carries nothing, remembers no card, and has exactly the twelve cards of pile 0 face up |
| Findings.InsertAfterPutsCardBefore | CardPile.java:69-73 | inserting 3 "after" 7 in the pile [7] gives [3, 7] |
| Findings.InsertAfterMark | CardPile.java:63-73 | the corrected `insertAfter` puts the card right after the mark's first occurrence and keeps the rest |
| Findings.InsertAfterMisplaces | CardPile.java:69-73 | whenever the mark is present and differs from the card, the code disagrees with the corrected version |
| Findings.InsertAfterMarkIsMerge | CardPile.java:141-148 | the corrected single-card insertion is `merge` of a one-card pile |
| Findings.InsertPileAfterPutsRunBefore | CardPile.java:92-95 | inserting [3, 4] "after" 7 in the pile [7] gives [3, 4, 7] |
| Findings.InsertPileAfterMark | CardPile.java:86-95 | the corrected pile overload puts the run, in order, right after the mark |
| Findings.InsertPileAfterMarkIsMerge | CardPile.java:141-148 | the corrected run insertion is what `merge` does to the receiver |
| Findings.SplitNullThrows | CardPile.java:110-132 | `split(null)` on [5, 6] throws NoSuchElement instead of moving the pile |
| Findings.SplitOrAll | CardPile.java:110-118 | the corrected `split`: a null mark moves the whole pile, any other mark splits as written |
| Findings.SplitOrAllThenAppend | CardPile.java:110-160 | appending what the corrected `split` returns restores the pile, whatever the mark |
| Findings.ReleaseBelowRowsLosesCards | CardTable.java:112-142 | from the constructor's table, press, drag, release at y = 550, press pile 1, drag: none of cards 0..11 is on the table any more, and the invariant fails |
| Findings.NearestRow | CardTable.java:106-113 | the row nearest to height `y`: `y / 100` inside the rows, otherwise the first or last row |
| Findings.ReleaseNearest | CardTable.java:106-126 | the corrected release merges the moving pile into row `NearestRow(y)` after the card under the pointer there (in front if none), remembers that card, empties the moving pile at its anchor and ends the drag, wherever the pointer is; inside the rows it is the code's release |
| Findings.ReleaseNearestConserves | CardTable.java:106-126 | the corrected release loses no card and leaves nothing in motion |
| Findings.DispatchNearest | CardTable.java:79-150 | event dispatch with the corrected release agrees with the code except for a release outside the rows |
| Findings.RunNearestAgrees | CardTable.java:79-150 | on any event sequence whose releases fall inside the rows, the corrected handlers produce the same table |
| Findings.GestureConservesNearest | CardTable.java:101-150 | with the corrected release, any gesture keeps every card on the table exactly once |
| Findings.SessionConservesNearest | CardTable.java:101-150 | with the corrected release, any session of gestures keeps the table invariant |

## Left out

- Drawing (`paintComponent`, `CardPile.draw`) and the canvas size (`WIDTH`, `HEIGHT`, `getMinimumSize`, `getPreferredSize`): pure Swing output. `draw` shows the back of a face-up card and the front of a face-down one; the model states nothing about drawing.
- `Card.loadImages`, `getFrontSide`, `getBackSide` and the image fields: network access and image loading.
- `validatePiles` and `CardPile.print`: console output only.
- `repaint()` calls: they change no state of the model. Registering the listeners is modelled only by what it wires up: `Dispatch` sends each event to its handler.
- Accessors and manipulators (`getX`, `setX`, `getIsFaceUp`, `getRank`, `suit`, …) and the `Card`/`CardPile` constructors: these are the fields and constructors of the model's datatypes.
- Object identity and aliasing: piles are values, and the 52 cards are numbered by their position in the one deck the program creates. `setPile` storing the caller's own object, and a `Card` reachable from two piles, are not modelled.
- `setPile(i, null)`: a pile argument is always a value, so the NullPointerException is not modelled.
- Concurrency: Swing handles events one at a time on one thread, which `Run` models as a sequence.
- The order of events is not restricted to what Swing delivers; the conservation theorems assume gestures (press, drags, release, clicks).
- CardTables.InitialTable: takes the deck that `Card.newDeck()` returns as a parameter, required to equal `NewDeck()`, instead of calling it.
- CardPiles.LocateCard: coordinates are unbounded integers, so Java's 32-bit wrap-around of `cx + 72` or `cx += 12` for coordinates near 2^31 is not modelled.
- CardTables.TruncDiv: the same holds for `y / 100`; Swing coordinates are far from the 32-bit limits.

## Findings

| source | as written | input that shows it | evidently intended | confidence | as-written member | corrected member |
|---|---|---|---|---|---|---|
| CardPile.java:69-73 | `insertAfter(card, mark)` is `add(indexOf(mark), card)`, the same body as `insertBefore` | `insertAfter(3, 7)` on the pile [7] gives [3, 7] | the card goes after the mark, `add(indexOf(mark) + 1, card)`, giving [7, 3] | not executed | Findings.InsertAfterPutsCardBefore | Findings.InsertAfterMark |
| CardPile.java:92-95 | `insertAfter(insert, mark)` is `addAll(indexOf(mark), insert)` | `insertAfter([3, 4], 7)` on the pile [7] gives [3, 4, 7] | the run goes after the mark, giving [7, 3, 4] | not executed | Findings.InsertPileAfterPutsRunBefore | Findings.InsertPileAfterMark |
| CardPile.java:110-132 | `split(null)` removes every card, then `getLast()` on the empty list throws | `split(null)` on [5, 6] throws NoSuchElementException and leaves the receiver empty | the comment's "if mark is null, entire pile is moved" | not executed | Findings.SplitNullThrows | Findings.SplitOrAll |
| CardTable.java:112-142 | `pile[y / 100]` is indexed without a range check, so a release below the table throws before the merge and the moving pile keeps its cards. The next drag replaces `movingPile` | from the constructor's table: press (10, 10), drag (40, 40), release (40, 550), press (10, 110), drag (40, 40). Cards 0..11 are gone | the run goes into the nearest pile ("places cards in nearest pile") | not executed | Findings.ReleaseBelowRowsLosesCards | Findings.ReleaseNearest |
