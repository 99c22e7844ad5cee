# Proofs about a terminal multiplexer

A Dafny model of the parts of ezpn, a terminal multiplexer, where a mistake is easy to make and hard to see, with
proofs of what those parts promise. `dafny verify dfyconfig.toml` checks all of it.

## What is modelled

- **The layout tree and its geometry.** `LayoutTree` has the binary split tree and its operations: split, remove,
  detach, attach, equalize, swap. `Geometry` maps the tree to `u16` rectangles and proves exact tiling and that
  clicking agrees with drawing. `Placement` says where a split puts the new pane. `Separators` proves that the drawn lines are the gaps. `Sightlines` studies what lies
  beyond a pane along one line, and `Navigation` proves exactly when focus movement finds a neighbour. `FairDivision`
  proves that equalized panes differ by at most one cell. `LayoutSpec` builds trees from grids and textual specs,
  `SpecPrinting` writes specs and proves that they read back, `Relabel` fits running panes into such a tree.
- **One tab under control requests.** `Workspace` ties the tree to the pane table and proves what every run of split,
  close, focus, equalize, layout and exec keeps.
- **The control-sequence filter.** `ControlFilter` is the byte machine between a program and the terminal emulator,
  `FilterSimulation` proves that the filtered stream means what the raw stream meant, on lemmas in `Replay` about the
  single control sequences. `ModeEffects`, `KeyboardEffects` and `Clipboard` say of the bytes of each control what it
  does to modes, keyboard flags and clipboard queues, `ModeLaws` proves that terminal modes do not
  interfere.
- **Queues and protocols.** `EventBus` (what a slow subscriber loses and is told), `HookPool` (workers, a bounded queue,
  a draining shutdown), `PtyWriter` (nonblocking input), `RestartBudget` (restarts with growing delays).
- **Smaller refinements.** `BufferStore` (least recently set buffers and a counter that is renumbered), `EnvInterp`
  (variable expansion and its dependence flag), `CopySearch` (cyclic search), `TailBuffer` (a ring of bytes).

Where the program updates an object in place the model is a class whose methods are proved equal to a function on
values, and the main theorems are about that function and its runs.

## How to read the model

- A split ratio is a real number or "not finite". The value of `((extent + 1) * ratio).round()` is an arbitrary
  function `Rounding` of ratio and extent, so tiling, hit testing, separators, navigation and the run invariants hold for
  every behaviour of floating point. Fair division alone asks that the value be the floor or the ceiling of the exact
  product; `FairDivision.SinglePrecisionIsNearby` derives this from the correct rounding of quotient and product to 24
  bits that IEEE 754 asks of 32-bit floats.
- Iteration over a hash map is an arbitrary choice of the next key.
- Whether a process spawns, what a write to the pseudo-terminal answers, what a clock shows, which thread moves next and
  which sleeping worker a notification wakes are parameters; the theorems are for all of them.
- Mode 2026 (synchronized output) is recorded as open or not; its time stamp is left out. A Kitty keyboard query is
  recorded by the flags it answers.
- The entries of a pane table are its launch command and its size.

## Where the code departs from its documentation, or from what one might expect

- **Events.** The documentation (`src/events.rs:27-35`, `src/events.rs:292-300`) says that a loss notice is sent ahead
  of the next payload. After a notice the code reserves the next slot for a payload, so one payload can overtake the
  notice of a newer loss. `EventBus.OvertakesIff` says exactly when, `EventBus.OvertakingHappens` gives a run, and
  `EventBus.LossAccounting` includes that it is never more than one.
- **Expansion.** `src/env_interp.rs:348-349` lists the forms `${VAR:-default}` and `${VAR:?msg}` without a limit on the
  variable or the text. A variable called `secret` cannot be written that way, because `${secret:` introduces a key, and
  the first closing brace ends the reference, so a text with a brace in it, such as a nested reference, is cut short:
  `EnvInterp.SecretHasNoDefault`, `EnvInterp.BraceEndsDefault`. `EnvInterp.DefaultWorksIff` and
  `EnvInterp.RequiredWorksIff` say that the forms mean what is documented in all other cases and in no other.
- **Navigation.** A pane away from the area's edge need not have a neighbour: if it is one cell long on the edge it looks
  across it can face the end of a separator, `Navigation.OneRowMayHaveNoNeighbour`. `Navigation.NavigationExact` says for
  every pane exactly when there is one, and `Navigation.NavigationComplete` that from two cells on being away from the
  edge is enough.
- **Closing the last pane.** The tree keeps its last leaf when the last pane is closed, so table and tree then differ:
  `Workspace.LastCloseEmpties`. `Workspace.TableIsLeavesUnlessEmpty` says that they differ in no other case.

## Model

| member | source | states |
|---|---|---|
| `LayoutTree.SplitInserts` | src/layout.rs:728-749 | Splitting a leaf puts the new id directly after its target in tree order, at every place the target occurs, and touches no other id |
| `LayoutTree.SplitPosition` | src/layout.rs:197-204 | With distinct ids, a split followed by its equalize is one insertion right after the target |
| `LayoutTree.RemoveDropsOne` | src/layout.rs:751-791 | Removal deletes exactly the first occurrence and keeps the order of the rest; only a lone target leaves no tree |
| `LayoutTree.ContainsIsMembership` | src/layout.rs:793-800 | The recursive membership test agrees with the collected list of ids |
| `LayoutTree.EqualizeIdempotent` | src/layout.rs:478-492 | Equalizing twice is equalizing once |
| `LayoutTree.EqualizeOnlySetsRatios` | src/layout.rs:478-492 | Equalizing changes ratios only: shape, directions and ids stay |
| `LayoutTree.EqualizeSharesEqually` | src/layout.rs:206-209 | After equalizing, the product of ratios along every leaf's path is one n-th of the whole: every leaf gets equal space, in trees that mix directions too |
| `LayoutTree.RemoveUndoesSplitNode` | src/layout.rs:728-791 | Removing a freshly split leaf gives back the very same tree, ratios included |
| `LayoutTree.SplitThenRemove` | src/layout.rs:197-223 | Split with its equalize, remove the new pane, equalize: the same tree as only equalizing |
| `LayoutTree.DetachAttachConserves` | src/layout.rs:263-325 | Moving a pane between two tabs conserves the combined multiset of ids |
| `LayoutTree.SwapTwice` | src/layout.rs:804-818 | Swapping two ids twice restores the tree |
| `LayoutTree.Layout.Split` | src/layout.rs:197-204 | Hands out the next id, advances the counter by one, and leaves the equalized split tree |
| `LayoutTree.Layout.Remove` | src/layout.rs:212-223 | Succeeds exactly for a present pane that is not the last; the id list loses just that id, and a refusal changes nothing |
| `LayoutTree.Layout.DetachLeaf` | src/layout.rs:263-285 | As removal, and answers with the detached id |
| `LayoutTree.Layout.AttachPane` | src/layout.rs:310-325 | Succeeds exactly for a present anchor and an absent id, never lowers the counter, keeps it above the attached id; a refusal changes nothing |
| `LayoutTree.Layout.SwapPanes` | src/layout.rs:381-383 | The id list changes by exchanging the two ids, and swapping again restores the tree |
| `Geometry.FirstExtent` | src/layout.rs:536-554 | Whatever rounding makes of the ratio, finite or not, both children get at least one cell |
| `Geometry.SplitDivides` | src/layout.rs:531-574 | The two halves and the one-cell gap line up along one axis and share the other, or the first half takes the whole area |
| `Geometry.NonFiniteDividesEvenly` | src/layout.rs:531-533 | A stored ratio that is infinite or not a number divides evenly |
| `Geometry.Partition` | src/layout.rs:531-574 | Every cell of an area lies in exactly one pane or exactly one separator strip, and no cell outside lies in any |
| `Geometry.AreaConserved` | src/layout.rs:513-574 | The cells of the leaves' rectangles and the cells of the strips add up to width times height |
| `Geometry.ExactTiling` | src/layout.rs:178-182 | For every tree, all ratios, all rounding and every rectangle: panes are pairwise disjoint, lie inside the clipped area, and with the strips fill it |
| `Geometry.CollectRects` | src/layout.rs:513-529 | The recursive filling of the map is the left-to-right overlay of the leaves' rectangles |
| `Geometry.PaneRects` | src/layout.rs:178-182 | The returned map is the one the geometry results speak of |
| `Geometry.RectMapIsLeaves` | src/layout.rs:178-182 | With distinct ids the map has exactly the leaf ids as keys, each with its own leaf's rectangle |
| `Geometry.FindAtFindsLeaf` | src/layout.rs:624-643 | The descent finds a leaf under the cell, and finds none only when no leaf covers it |
| `Geometry.HitTestAgreement` | src/layout.rs:192-194 | The pane found at a cell is the one whose drawn rectangle contains it, and none is found exactly on separator strips and outside the clipped area |
| `Placement.NewPaneIsNext` | src/layout.rs:728-748 | After a split the new pane is right of its target or below it, one separator away; the two share the target's rectangle along the direction and keep its extent across; under three cells the new pane is empty; every other pane stays where it is |
| `Placement.SplitPlacesNewPane` | src/layout.rs:197-205 | After splitting and equalizing, on any area, a new pane that is not empty is right of its target or below it, one separator away and of the same extent across |
| `Placement.SwapKeepsPlaces` | src/layout.rs:804-818 | Swapping two panes moves no rectangle: each takes the place of the other |
| `Separators.CollectSeps` | src/layout.rs:578-620 | The traversal appends exactly the lines of the tree, in tree order |
| `Separators.LinesKeepToGaps` | src/layout.rs:578-620 | A drawn cell is inside the outer rectangle, and is a gap of the tree or directly outside its area |
| `Separators.SeparatorsInsideOuter` | src/layout.rs:185-189 | Every cell of every separator line lies inside the clipped outer rectangle |
| `Separators.SeparatorsFillTheGaps` | src/layout.rs:185-189 | Inside the content area the drawn cells are exactly the cells that no pane covers |
| `Separators.GapsAndEndsAreDrawn` | src/layout.rs:578-620 | On a visible area exactly the gaps are drawn, and the one cell beyond each of their ends, as far as these are visible |
| `Navigation.Navigate` | src/layout.rs:324-354 | In whatever order the rectangles come, the answer is a pane lying beyond on a common line with the fewest cells between, of several such the one with the least id, and none only if there is none |
| `Navigation.NearestIsUnique` | src/layout.rs:346-354 | There is only one such answer |
| `Navigation.EdgeCovered` | src/layout.rs:531-574 | Along any edge of any subtree, of two neighbouring cells at least one is covered by a pane |
| `Navigation.FlipLeaf` | src/layout.rs:531-574 | The layout does not favour an axis: the transposed tree on the transposed area gives the transposed rectangles |
| `Sightlines.NoTwoWalls` | src/layout.rs:531-574 | Of two neighbouring lines through an area at most one is separator all the way across |
| `Sightlines.PaneBeyondOpens` | src/layout.rs:531-574 | A pane beyond another on a common line means that this line opens: some part between it and the edge is no wall |
| `Sightlines.OpensToPane` | src/layout.rs:531-574 | Along an open line there is a pane beyond |
| `Sightlines.NeverTouch` | src/layout.rs:531-574 | Two nonempty panes with a line in common have a cell between them |
| `Navigation.NavigationExact` | src/layout.rs:346-354 | For every pane and every direction: there is a neighbour if and only if the pane is not empty and along one of its own rows (or columns) some part of the layout between it and the area's edge is not separator all the way across |
| `Navigation.NavigationComplete` | src/layout.rs:346-354 | For a pane at least two cells long on the edge it looks across that condition is that it stops short of the area's edge, and then the chosen neighbour is one separator away |
| `Navigation.SomeGap` | src/layout.rs:876-903 | No candidate is nearer than one cell |
| `Navigation.OneRowMayHaveNoNeighbour` | src/layout.rs:876-894 | The two cells are needed: a five-pane layout in which a pane one row high, away from the edge, has no right neighbour |
| `FairDivision.SinglePrecisionIsNearby` | src/layout.rs:478-492 | A ratio stored as a rounded 32-bit quotient, times the slots, rounded again and then to the nearest integer, is the floor or the ceiling of the exact share, for every extent and every ratio of at least one in 65536 |
| `FairDivision.HalfUpIsNearby` | src/layout.rs:544-546 | So is exact arithmetic rounded half up |
| `FairDivision.ShareBounds` | src/layout.rs:544-549 | If there are between q and q+1 slots a leaf, a child that gets the floor or the ceiling of its leaves' share, and its sibling, again have between q and q+1 slots a leaf |
| `FairDivision.FairSlots` | src/layout.rs:478-574 | With between q and q+1 slots a leaf (q at least 2) in an equalized one-direction tree, every leaf ends with q-1 or q cells and no clamp takes effect |
| `FairDivision.FairDivision` | src/layout.rs:206-209 | For every one-direction tree of n leaves and every extent of at least 2n-1: equalized extents differ by at most one, and no clamp takes effect |
| `FairDivision.FairInSinglePrecision` | src/layout.rs:206-209 | The same with the ratios and products computed in 32-bit floats |
| `LayoutSpec.SpecNumbersPanes` | src/layout.rs:100-165 | Every accepted spec numbers its panes 0, 1, 2, ... in tree order, one to a hundred of them, and the counter comes next |
| `LayoutSpec.SpecAccepts` | src/layout.rs:115-153 | A spec that is no preset is accepted if and only if it has at most 100 columns and each is a number from 1 to 9; the early count of separator bytes equals the number of columns |
| `LayoutSpec.WeightIsDigit` | src/layout.rs:126-147 | A weight is read exactly when the text is a digit from 1 to 9, maybe with zeros, a plus sign and white space in front and white space behind, and it is that digit |
| `LayoutSpec.RowStandsSideBySide` | src/layout.rs:415-432 | On any area the columns of a row stand side by side in their order, each as high as the area |
| `LayoutSpec.RowsHaveBands` | src/layout.rs:435-446 | On any area each row of a spec fills a band of its own |
| `LayoutSpec.BandsLieBelow` | src/layout.rs:435-446 | The bands lie below one another in the order of the rows, each as wide as the area |
| `SpecPrinting.SpecRoundTrip` | src/layout.rs:100-165 | Round trip: rows of weights written as a spec and read back give the tree of just those rows and weights, up to a hundred panes; beyond that the refusal names their number |
| `SpecPrinting.PresetsAreTheirWeights` | src/layout.rs:92-114 | Each named preset but quad is the layout of the weights documented for it, white space around the name left out |
| `LayoutSpec.RowShares` | src/layout.rs:415-432 | In a weighted row every column's product of ratios is its weight over the row's total |
| `LayoutSpec.ColumnShares` | src/layout.rs:435-446 | Rows share the height equally, whatever their columns weigh |
| `LayoutSpec.GridIds` | src/layout.rs:448-474 | A grid numbers its panes row by row without gaps |
| `LayoutSpec.GridIsEqualized` | src/layout.rs:448-474 | A grid as built is already equalized |
| `LayoutSpec.GridWidthsAreFair` | src/layout.rs:963-978 | For every grid of at least 2*cols-1 cells' width: no pane is without width, and no two widths differ by more than one, whatever the height |
| `LayoutSpec.GridHeightsAreFair` | src/layout.rs:448-458 | For every grid of at least 2*rows-1 cells' height: no pane is without height, and no two heights differ by more than one, whatever the width |
| `Relabel.RelabelLeaves` | src/bootstrap.rs:2451-2465 | The stack traversal visits leaves in tree order: the result has the shape and ratios of the spec and exactly the given ids in order |
| `Relabel.WithIdsUnique` | src/bootstrap.rs:2442-2469 | Shape and id order determine the relabelled tree |
| `Relabel.ReconfigureLayout` | src/bootstrap.rs:2442-2469 | Succeeds if and only if the spec is valid and asks for as many panes as there are; keeps ids, order and counter; a refusal leaves the tree untouched |
| `Workspace.Session.ResizePanes` | src/bootstrap.rs:2021-2034 | In whatever order the rectangles come, every pane that has one takes its size, at least one cell each way |
| `Workspace.Session.DoSplit` | src/bootstrap.rs:1958-2004 | Refuses before touching anything when a check fails, and leaves the tab as it was when the spawn fails |
| `Workspace.Session.ClosePane` | src/bootstrap.rs:2006-2019 | Drops the pane from table and tree, keeps a last leaf, and moves the focus off the closed pane |
| `Workspace.Session.HandleRequest` | src/bootstrap.rs:2188-2309 | Each request in place has the effect and the reply of the step that the run invariants are proved of |
| `Workspace.SplitsExactlyWhenRoomy` | src/bootstrap.rs:1958-2004 | A request to split is done if and only if the target is in table and tree, fewer than 100 panes run, the id counter is not exhausted, the spawn succeeds, and both halves of an even split of the target are at least 6 columns by 3 rows |
| `Workspace.SplitAddsShell` | src/bootstrap.rs:1989-2004 | A split puts a shell under the next id directly after its target; the focus and every other pane's program stay |
| `Workspace.StepConsistent` | src/bootstrap.rs:2188-2309 | Every request keeps ids distinct and below the counter, the focus on a leaf, at most 100 panes, and the table equal to the leaves (or empty beside one stale leaf) |
| `Workspace.RunConsistent` | src/bootstrap.rs:2188-2309 | The same after every sequence of requests, on whatever screens and with whatever spawn failures |
| `Workspace.StartConsistent` | src/bootstrap.rs:1688-1739 | A tab started from a layout whose panes are numbered from zero, at most 100 of them, is consistent and every program has the size of its rectangle |
| `Workspace.StartLaunches` | src/bootstrap.rs:1700-1707 | Each pane of a started tab runs what was to be launched in it, or else a shell, and the first one has the focus |
| `Workspace.SpecRunsConsistent` | src/bootstrap.rs:1556-1573 | A tab started from an accepted spec, one pane to a rectangle and the first one active, is consistent after every sequence of requests |
| `Workspace.GridRunsConsistent` | src/bootstrap.rs:1556-1573 | The same for a tab started from a grid of at most 100 panes |
| `Workspace.IdsNeverReused` | src/bootstrap.rs:1958-2019 | A pane id once handed out and gone never appears again in any future |
| `Workspace.TableIsLeavesUnlessEmpty` | src/bootstrap.rs:2006-2019 | In every reachable tab the table is the set of leaves if and only if it is not empty |
| `Workspace.LastCloseEmpties` | src/bootstrap.rs:2006-2019 | Closing the last pane succeeds, empties the table and leaves its leaf in the tree |
| `Workspace.EmptyStaysEmpty` | src/bootstrap.rs:2188-2309 | An emptied tab stays empty in every future: nothing can be split or restarted in it |
| `Workspace.RefusedChangesNothing` | src/bootstrap.rs:2188-2309 | An error reply means the tab is exactly as before |
| `Workspace.StepKeepsSizes` | src/bootstrap.rs:2021-2034 | On an unchanging screen every request keeps each program's size equal to the rectangle drawn for its pane |
| `Workspace.RunKeepsSizes` | src/bootstrap.rs:2021-2034 | The same over every sequence of requests |
| `ControlFilter.Interceptor.InterceptByte` | src/pane.rs:1134-1285 | One byte in place has the effect and the output of one step of the machine |
| `ControlFilter.Interceptor.InterceptChunk` | src/pane.rs:1132-1287 | A chunk in place has the effect and the output of feeding its bytes in turn, whatever state earlier chunks left |
| `ControlFilter.Interceptor.InterceptDecModes` | src/pane.rs:1329-1356 | The loop over the parameters of a private mode sequence has the effect and the output of handling them one after the other, and leaves other sequences alone |
| `ModeEffects.SetsWhatItNames` | src/pane.rs:1643-1690 | For every machine in the ground state and every string of digits: after the sequence that sets or clears a private mode, the mode of that number is on or off, a rival of a mode set is off, all other modes are as before, the keyboard stacks change places exactly with the screen, and a number that names no mode changes nothing |
| `ModeEffects.SetsEachInTurn` | src/pane.rs:1329-1356 | A sequence with several numbers has the effect and the output of one sequence for each in turn |
| `ModeEffects.PassesOnMode` | src/pane.rs:1329-1356 | The bytes of a private mode are passed on as they are, but 47 for 1047, with the screen cleared when that one is left |
| `ModeEffects.OthersPass` | src/pane.rs:1193-1209 | A complete control sequence about neither private modes nor the keyboard passes and has no effect |
| `ModeEffects.ResetShowsNothing` | src/pane.rs:1167-1173 | A full reset switches every mode off and empties both keyboard stacks |
| `KeyboardEffects.PushPutsOnTop` | src/pane.rs:1358-1375 | A push puts the supported bits of its number on top, forgetting the oldest of 32; a parameter that is no number of 32 bits has no effect |
| `KeyboardEffects.PopTakesOff` | src/pane.rs:1376-1380 | A pop takes that many entries off the top, one if the number is zero or left out, never more than there are |
| `KeyboardEffects.ChangeTouchesTop` | src/pane.rs:1381-1393 | A change sets, adds or takes away the bits of its number in the top entry, bit by bit, and leaves the others; an unknown kind of change has no effect |
| `KeyboardEffects.SetSetsTop` | src/pane.rs:1381-1393 | Without a kind the top entry is set |
| `KeyboardEffects.ThirdParameterSpoils` | src/pane.rs:1381-1393 | A change with three parameters has no effect |
| `KeyboardEffects.QueryIsAnswered` | src/pane.rs:1394-1400 | A query is answered with the top entry's five low bits, or zero, and changes nothing else |
| `KeyboardEffects.OthersHaveNoEffect` | src/pane.rs:1358-1401 | Any other sequence with that final byte passes and has no effect |
| `ControlFilter.FeedAppend` | src/pane.rs:1130-1132 | Chunking does not matter: two chunks have the output and the effect of their concatenation |
| `FilterSimulation.FilterSimulation` | src/pane.rs:1130-1356 | For every byte stream from the ground state: the output passes a second filter unchanged and leaves it with the same modes and answers; that filter's own parser is amid an escape exactly when the first is, and clean otherwise; on the way it meets no string control, no overflow and no OSC payload over 8192 bytes; the first filter's buffers keep 256 bytes and 1 MiB |
| `FilterSimulation.SimulateStep` | src/pane.rs:1134-1285 | One raw byte to one machine and its replacement to another keep the two mirroring each other |
| `Replay.ReplaysDecModes` | src/pane.rs:1329-1356 | The rewriting of a private-mode sequence, 1047 included, has the effect of the original and rewrites to itself |
| `FilterSimulation.ChunksAgree` | src/pane.rs:1130-1132 | At every cut of the input the buffers are within bounds, and the two parts together give what the whole gives |
| `Clipboard.QueuesStayBounded` | src/pane.rs:1480-1487 | Over any input neither clipboard queue exceeds 8 envelopes or 2 MiB |
| `Clipboard.PolicyHolds` | src/pane.rs:1403-1478 | With reading denied and writing not allowed outright, no input puts anything in the outgoing clipboard queue; with writing denied the clipboard state never changes |
| `Clipboard.RequestIsQueued` | src/pane.rs:1403-1487 | From the ground state, for all bytes: a clipboard request is queued if and only if its selections and data are well formed and not too long, the policy and the user's decision allow it, and the queue has room; it goes to the outgoing queue, or to the one that waits for a decision, as the bytes that came |
| `Clipboard.OthersAreDropped` | src/pane.rs:1289-1327 | Any other operating system command leaves the queues alone, and is passed on only as a title of at most 8192 bytes |
| `ModeLaws.FamiliesCommute` | src/pane.rs:1643-1700 | Modes of different families can be set and cleared in either order with the same result |
| `ModeLaws.StaysInFamily` | src/pane.rs:1643-1700 | A private mode changes its own family's part of the state only |
| `ModeLaws.ScreensKeepTheirStacks` | src/terminal_state.rs:334-339 | Whatever a program sends while it stays on the alternate screen, leaving finds the main screen's keyboard stack as it was and keeps the alternate one for the return |
| `ModeLaws.PopUndoesPush` | src/terminal_state.rs:120-139 | Popping after pushing restores the stack if and only if it was not full |
| `ModeLaws.StacksStayBounded` | src/terminal_state.rs:120-128 | Whatever a program sends, neither keyboard stack exceeds 32 entries |
| `ModeLaws.ReadsDecimalValue` | src/pane.rs:1598-1610 | A parameter is read as the place value of its digits if and only if it is all digits and fits 32 bits; nothing wraps around |
| `ModeLaws.PlainTextPasses` | src/pane.rs:1143-1150 | Text without escape characters passes unchanged and has no effect |
| `EventBus.Bus.Subscribe` | src/events.rs:262-280 | Hands out an id that no subscriber has and adds an empty queue |
| `EventBus.Bus.Unsubscribe` | src/events.rs:282-285 | Removes the subscriber and keeps the others in order |
| `EventBus.Bus.Publish` | src/events.rs:301-347 | Each subscriber undergoes its own delivery, and exactly those found disconnected are forgotten |
| `EventBus.RetainIsRemaining` | src/events.rs:343-345 | Forgetting by id removes exactly the subscribers found gone, because ids are distinct |
| `EventBus.LossAccounting` | src/events.rs:301-347 | For every subscriber and every interleaving of publishes, reads and a hang-up: matching publishes equal payloads enqueued plus losses announced plus losses pending, payloads keep their order, notices are never adjacent, the queue stays within 1000 and is the unread end of what was enqueued, and at most one payload is ahead of a loss notice |
| `EventBus.DeliversWhatWasAsked` | src/events.rs:355-368 | Over every run from a subscription with these filters: what is enqueued has the session and one of the tags asked for and comes in order, and every event asked for is enqueued, announced as lost or about to be |
| `EventBus.SmallRunsLoseNothing` | src/events.rs:301-347 | As long as at most 1000 events were asked for, all of them are enqueued in order, and without reading the queue is exactly those events |
| `EventBus.NoticesBounded` | src/events.rs:222-224 | Notices cannot starve payloads: there is at most one more notice than payloads |
| `EventBus.OvertakesIff` | src/events.rs:312-341 | A delivery enqueues a payload while losses are unannounced if and only if the event matches, the subscriber is connected with room in its queue, losses are pending and a notice was the last thing sent |
| `EventBus.OvertakingHappens` | src/events.rs:312-341 | A run in which a payload gets ahead of the notice of an older loss |
| `HookPool.HookPool.Submit` | src/hooks.rs:545-553 | Accepts exactly when there are workers, the pool is open and fewer than 64 jobs wait; a refusal changes nothing |
| `HookPool.HookPool.WorkerLook` | src/hooks.rs:520-529 | A worker takes the front job, sleeps, or leaves once the pool is closed and empty |
| `HookPool.HookPool.PollShutdown` | src/hooks.rs:560-574 | Answers true exactly when nothing waits or runs; on a timeout discards the queue and answers false |
| `HookPool.HookPool.Abandon` | src/hooks.rs:579-588 | Closes the pool, empties the queue and wakes everyone |
| `HookPool.StepIsSound` | src/hooks.rs:495-588 | Every critical section of every thread keeps the accounts, the bounds and the wake-up invariant |
| `HookPool.AcceptedExactlyWhenOpen` | src/hooks.rs:553-561 | A job is accepted exactly when there is a worker, the pool is open and fewer than 64 jobs wait; then it waits behind the others and the chosen sleeper wakes, and else nothing changes |
| `HookPool.PoolProtocol` | src/hooks.rs:495-588 | In every interleaving: at most 64 jobs wait, no more run than there are workers, jobs start in the order of acceptance, and accepted equals finished plus running plus waiting plus discarded |
| `HookPool.NeverStuck` | src/hooks.rs:520-536 | While jobs wait or run some worker can move: no wake-up is lost |
| `HookPool.DrainProgress` | src/hooks.rs:555-576 | Once the pool is closed every worker step that takes or ends a job lowers twice the queue plus the running jobs, every worker step lowers the work that remains, and nothing raises it |
| `HookPool.DrainIsBounded` | src/hooks.rs:555-576 | From a closed pool, in every run, the steps of workers plus the work left are at most the work there was |
| `HookPool.NothingStartsAfterShutdown` | src/hooks.rs:555-576 | After shutdown has answered no job ever starts again; if it answered true none is running either |
| `PtyWriter.BufferedPtyWriter.DrainPending` | src/pane.rs:992-1006 | The drain loop hands over what the recorded answers take and leaves the rest |
| `PtyWriter.BufferedPtyWriter.Write` | src/pane.rs:979-990 | Drains first, and then takes all of the bytes or none |
| `PtyWriter.DrainSplits` | src/pane.rs:992-1008 | What is handed over is a front part of the queue and what stays is the rest, unless a hard failure empties it |
| `PtyWriter.DrainFollowsAnswers` | src/pane.rs:992-1006 | For every prefix of answers with which a drain goes on: either they took the whole queue, or exactly as many bytes are handed over as they took and the next answer decides how it ends |
| `PtyWriter.AcceptedExactlyWhenRoom` | src/pane.rs:978-990 | A write is accepted if and only if the drain before it emptied the queue and the flush below succeeded, or it was told to wait, and the bytes fit in 1 MiB beside what is left |
| `PtyWriter.FlushReports` | src/pane.rs:1000-1008 | A flush is an error exactly when the write side is closed or broken, or the queue emptied and the flush below failed |
| `PtyWriter.StepKeepsOrder` | src/pane.rs:978-1008 | An accepted write adds exactly its bytes to the input, a refused one adds none |
| `PtyWriter.PtyInputFifo` | src/pane.rs:969-1009 | Over every run, until a hard failure, bytes delivered followed by bytes pending are the bytes accepted, and pending stays within 1 MiB |
| `PtyWriter.DrainsEventually` | src/pane.rs:992-1006 | A terminal that keeps taking bytes empties the queue within as many writes as there are bytes |
| `RestartBudget.Restarter.RestartPanes` | src/bootstrap.rs:2376-2439 | In whatever order the panes come, one pass gives each its own new retry entry, and restarts exactly those whose attempt spawned |
| `RestartBudget.RestartBudgetHolds` | src/bootstrap.rs:2376-2439 | Over every timed run: at most ten attempts until the entry is dropped, and attempt n+1 at least 2*max(1, n-2) seconds after attempt n, failed spawns included |
| `RestartBudget.TenthAfterAMinute` | src/bootstrap.rs:2407-2410 | The tenth attempt comes at least 60 seconds after the first |
| `RestartBudget.TriedExactlyWhenDue` | src/bootstrap.rs:2366-2410 | A pass tries to restart a pane if and only if it is in the table and down, its policy is always, or on failure and it did not exit with status 0, it has had fewer than ten attempts, and it has waited 2 s after each of the first three and 2 s more each time after |
| `RestartBudget.ForgottenOnlyWhenHealthy` | src/bootstrap.rs:2387-2391 | In one pass, attempts are forgotten exactly for a pane that is gone or seen alive 30 seconds after its last attempt, and a pane down after ten is not tried |
| `RestartBudget.GivenUpForGood` | src/bootstrap.rs:2387-2421 | Over every sequence of passes in which it stays down, a pane that has had ten attempts is never tried again |
| `RestartBudget.FirstAttemptIsImmediate` | src/bootstrap.rs:2404-2410 | A pane with no entry is tried at once |
| `BufferStore.BufferStore.Set` | src/buffers.rs:81-109 | Refuses exactly oversized texts; otherwise the contents change by touching the name in the recency list and storing its text, every other kept text is unchanged, across a renumbering too |
| `BufferStore.BufferStore.Delete` | src/buffers.rs:124-126 | Removes just that name and returns its entry |
| `BufferStore.BufferStore.NextSeq` | src/buffers.rs:197-209 | The number handed out exceeds every stored one and stays below the counter, even at the counter's limit, and no text or order changes |
| `BufferStore.BufferStore.EvictOldest` | src/buffers.rs:215-224 | Drops the head of the recency list |
| `BufferStore.KeepsMostRecent` | src/buffers.rs:62-126 | Whatever is set and deleted in whatever order, the stored names are the last of all names set and not deleted, in the order of their last setting, at most a hundred, each with the text it was last set to; while nothing is deleted they are exactly the last hundred |
| `BufferStore.OverwriteDropsNone` | src/buffers.rs:78-80 | Setting a stored name again drops no name |
| `BufferStore.OverwriteKeepsPlace` | src/buffers.rs:97-108 | Setting a stored name again leaves the eviction order as it is if and only if it was the name set last |
| `BufferStore.OverwriteMovesToEnd` | src/buffers.rs:97-108 | Of two names, setting the older one again makes the other the next to be evicted |
| `EnvInterp.SegmentsSpellTemplate` | src/env_interp.rs:354-408 | Scanning splits the template into pieces that spell it again, without looking at any context: substituted text is never rescanned |
| `EnvInterp.EnvContext.Expand` | src/env_interp.rs:354-408 | The scan in place evaluates the pieces left to right up to the first error, and raises the flag exactly when one of them read an external source |
| `EnvInterp.EnvContext.ExpandWithSensitivity` | src/env_interp.rs:412-419 | The flag returned speaks of this expansion alone, whatever was read before |
| `EnvInterp.ClearFlagMeansIndependent` | src/env_interp.rs:199-216 | With the flag clear, other environment files, process variables and secrets with the same names or fewer give the same outcome, values and errors alike |
| `EnvInterp.ExpandsTheSameWhenEmptied` | src/env_interp.rs:410-419 | With the flag clear, emptying every external source changes nothing |
| `EnvInterp.DoublingProtects` | src/env_interp.rs:362-367 | Doubling every dollar sign makes any text expand to itself and read nothing |
| `EnvInterp.LookupIsOverlay` | src/env_interp.rs:199-211 | Lookup is lookup in process variables overlaid by the environment file overlaid by pane settings; secrets take no part |
| `EnvInterp.SecretsOnlyOnRequest` | src/env_interp.rs:126-128 | Secrets make no difference to a template that does not ask for one by the secret prefix |
| `EnvInterp.SecretForm` | src/env_interp.rs:459-476 | The secret form gives the secret of its key, white space around it left out, or an error for an unknown or an empty key; no other source is asked |
| `EnvInterp.BareNameThen` | src/env_interp.rs:383-394 | A bare name ends at the first character that is no ASCII letter, digit or underscore |
| `EnvInterp.DollarAlone` | src/env_interp.rs:396-399 | A dollar sign before anything that starts no reference stands for itself |
| `EnvInterp.OtherNamesAreErrors` | src/env_interp.rs:478-520 | Braces around nothing, or around anything else than a name, are an error that says which |
| `EnvInterp.StrayColonIsError` | src/env_interp.rs:478-508 | A colon that begins no operator makes the whole text a name, which is an error |
| `EnvInterp.OtherNamesAreErrorsToo` | src/env_interp.rs:478-520 | The same before a default or a message |
| `EnvInterp.NameForms` | src/env_interp.rs:383-394 | The bare and the braced form of a name mean the same: its value, or nothing when unset |
| `EnvInterp.DefaultForm` | src/env_interp.rs:370-378 | For every name and default: the value if set and not empty and else the default up to its first closing brace, followed by the expansion of what is left behind it; for the name secret, what the text after the prefix names among the secrets comes first |
| `EnvInterp.DefaultWorksIff` | src/env_interp.rs:421-505 | For every name and default: the form means in every context what is documented if and only if the name is not secret and the default has no closing brace |
| `EnvInterp.RequiredForm` | src/env_interp.rs:370-378 | For every name and message: the value if set and not empty and else an error with the message up to its first closing brace, the rest as for defaults |
| `EnvInterp.RequiredWorksIff` | src/env_interp.rs:421-491 | For every name and message: the form means in every context what is documented if and only if the name is not secret and the message has no closing brace |
| `EnvInterp.SecretHasNoDefault` | src/env_interp.rs:460-472 | With nothing defined, no default after the name secret is used |
| `EnvInterp.BraceEndsDefault` | src/env_interp.rs:421-435 | With X set to v, the default a} makes the reference give v and a brace, though the default is not used |
| `CopySearch.CopyMode.SearchRow` | src/copy_mode.rs:626-634 | The find loop collects every occurrence in a row, overlapping ones included |
| `CopySearch.CopyMode.ExecuteSearch` | src/copy_mode.rs:590-669 | Collects all matches of all rows and moves the cursor to the nearest one in the direction, wrapping round |
| `CopySearch.CopyMode.PressNext` | src/copy_mode.rs:349-354 | One search step in the stored direction; the query and direction stay |
| `CopySearch.CopyMode.PressPrevious` | src/copy_mode.rs:355-362 | One search step the other way; the stored direction is as before |
| `CopySearch.MatchesSorted` | src/copy_mode.rs:604-635 | The matches are in screen order and on the screen |
| `CopySearch.ListedExactlyWhereItStands` | src/copy_mode.rs:604-635 | A match is listed if and only if the query stands there in that row character by character, and it covers the cells from that of its first character to that of its last |
| `CopySearch.JumpsToNearest` | src/copy_mode.rs:639-669 | Searching forward leads to the first match after the cursor, or at it while typing, and round to the first of all; searching backward to the last before it, and round to the last of all |
| `CopySearch.MovesAround` | src/copy_mode.rs:639-669 | From a match, a step leads to the next distinct match position round the cycle |
| `CopySearch.NextThenPrevious` | src/copy_mode.rs:349-362 | On a match, n and then N, or N and then n, is back at the same position |
| `CopySearch.SearchCycles` | src/copy_mode.rs:349-354 | With m distinct match positions, pressing n visits m different ones and the m-th press is back at the first |
| `CopySearch.EveryMatchIsVisited` | src/copy_mode.rs:349-354 | Every match is reached by pressing n fewer than m times |
| `TailBuffer.TailBuffer.Append` | scripts/runtime_driver.py:52-60 | Keeps the ring equal to the tail of everything appended, for chunks of any length |
| `TailBuffer.TailBuffer.Snapshot` | scripts/runtime_driver.py:62-66 | Returns the last bytes of everything appended, as many as the capacity or all of them |
| `TailBuffer.RingKeepsTail` | scripts/runtime_driver.py:52-60 | Writing a chunk with one wrap, advancing the position and counting the used cells turns the tail of the history into the tail of the longer history |

## Left out

- LayoutTree.Layout.Split: the source equalizes and swaps ids through mutable references inside boxed nodes; the tree is a value here and the owner's field is reassigned, so sharing of nodes (which the source cannot have) is not modelled. An id counter at the largest `usize` overflows in the source; the only caller modelled refuses before that.
- FairDivision.FairInSinglePrecision: of IEEE 754 the model takes correct rounding of positive normal numbers; infinities, subnormals and the sign of zero do not arise at these sizes and are left out.
- Workspace.Session.HandleRequest: the list, save and load requests, working directories, environments, names and render hints are left out; load replaces the whole tab from a file.
- Workspace.StepKeepsSizes: holds on an unchanging screen; a terminal resize is another call of the same resizing loop.
- Workspace.GridRunsConsistent: the command line and the project file refuse grids of more than 100 panes (`src/cli.rs:216`, `src/project.rs:271`); a Procfile of more than 100 entries starts more without a check (`src/bootstrap.rs:1650-1653`), and that start is left out.
- ControlFilter.Interceptor.InterceptChunk: window titles, the working directory of OSC 7 and the colour answers of OSC 4, 10, 11 and 12 are not part of the machine's state; a title of 8191 or 8192 bytes is remembered by the program but not passed on, so titles are outside the simulation claim. Number parsing and the popping of keyboard stacks are recursive functions and slices instead of loops.
- EventBus.Bus.Publish: drop counters are unbounded here and saturate at 64 bits in the source; time stamps are left out; a publish is one atomic step except that a reader may act between the two sends to its queue.
- HookPool.PoolProtocol: what a job does, and that running jobs watch the cancel flag, is left out; each critical section is one atomic step and poisoned locks are ignored.
- PtyWriter.BufferedPtyWriter.DrainPending: the wrapped terminal is a list of answers; when the list ends in the middle of a drain the drain counts as still looping.
- RestartBudget.Restarter.RestartPanes: what a restarted pane runs, its name and its shell are left out.
- BufferStore.BufferStore.Set: names are compared for equality only; alphabetical listing and saving to a file are left out.
- EnvInterp.EnvContext.Expand: error texts and byte positions are left out; reading environment files and secrets files is left out.
- CopySearch.CopyMode.ExecuteSearch: rows and queries come lowercased and rows come with their column map; Unicode lowercasing and wide cells are not modelled. The other keys of copy mode are left out.
- TailBuffer.TailBuffer.Append: the lock around each call is left out.
- Dragging and keyboard resizing of separators, cycling through panes by tree order, and detaching a sole pane: short functions with simple properties.
- The terminal emulator, rendering, keys and mouse, the command line, configuration files, snapshots, the socket protocol and the clipboard tools: I/O plumbing or tables.
