# Verified model of the pane layout engine and its byte streams

The parent process shows several programs at once. A tray holds a tiling layout of panes; the layout
is an n-ary tree of splits with integer percentages, stored as a map from node ids to nodes with parent
links and edited in place. Around it stand the browser bridge and the terminal screen, which cut, frame,
buffer and replay byte streams. This project models that code in Dafny and proves what it promises.

## How the layout is modelled

- `Percentages`, `RoundedShares`: the largest-remainder apportionment behind every percentage, and when shares
  that were scaled down and up again come out as they went in.
- `PaneTree`, `PaneNodes`: the layout read as an inductive tree, one-hole contexts for changing it in one
  place, and what it means for a node map to hold a tree (`Holds`: every link agrees with its inverse, and
  `Represents`: every entry is reached exactly once and every id was handed out by the allocator).
- `PaneEdits`, `MoveTrees`, `SwapTrees`: each edit as a function on trees, with what it does to the ids, the
  leaves, the shares and the alternation of axes.
- `LayoutMaps`, `MoveMaps`: why the same edit done on the map by rewriting links holds the edited tree.
- `PaneLayouts`, `PaneMoves`, `PaneSwaps`: the mutable layout. `PaneLayout` keeps a ghost tree; each method
  says when it is rejected and which tree it leaves. A rejected operation (an exception in the program)
  leaves the layout as it was.
- `PaneGeometries`, `PaneNavigations`, `PaneSelections`, `PaneRotations`, `PaneResizes`, `PaneMoveSessions`:
  regions and separators, directional search, selections, rotation, resizing, and move sessions.
- `Trays`, `TraySteps`, `TrayRuns`: the tray state machine, each event as a relation between two moments of it, and
  whole runs.
- `MoveTheorems`, `SwapTheorems`, `RotationTheorems`, `LayoutWitnesses`, `RotationWitnesses`: what follows for users.

The streams are `Utf8Prefixes`, `ControlSequences`, `EraseScans` and `TerminalScreens` (feeding the terminal in
chunks), `SnapshotLines` and `SnapshotBytes` (printing a row so that it can be played back), `PaneViewFrames`
(framing), `InputDecoders` (commands inside typed input) and `WebsocketHubs` (broadcast with backlog; one step per
locked section).

## Where the code does not do what its documents say

- plan/implementation/pane-story-plan.md:35 promises that no split directly contains a split of its own axis and
  that every operation restores this. A move breaks it exactly when the source is dropped on a target that is
  itself a split along the placement axis (`MoveTheorems.MoveAlternatesIff`);
  `LayoutWitnesses.DropJoinsAxes` is a three-pane layout, two splits away from a fresh one, in which it happens.
- In the layout that results, swapping the same two panes is rejected when started from one of them and accepted
  from the other (`LayoutWitnesses.SwapOneSided`): the first flattening absorbs the level the second one needs.
  In alternating layouts this cannot happen (`SwapTheorems.AlternatingSwappable`). Even there a second swap takes the
  first back only if neither level absorbed what it was given (`SwapTheorems.SwapTwiceIff`).
- plan/implementation/pane-story-plan.md:124-125 promises that rotating twice restores hierarchy and percentages.
  That holds for a grouped part of a level exactly when no unselected sibling has the level's own axis
  (`RotationTheorems.RotateGroupTwice`), and always for the root. A split inside another is replaced by one with a
  new id, and all else is restored exactly when the two axes differ, no sibling has the outer axis, and its
  percentages survive being rounded twice (`RotationTheorems.RotateSplitTwice`). In an alternating layout only the
  last condition matters (`RotationTheorems.RotateAlternatingTwice`). `RoundedShares.RestoredIff` says exactly which
  percentages do. Three equalized panes below another are a case that fails: 34, 33, 33 in a slot of 50 come back as 34, 34, 32
  (`RotationWitnesses.ThirdsDoNotSurvive`).

## What the code does only in part

- A snapshot row is shown again exactly as it was if and only if every code point can be written, no underline is
  curly, and a blank end that is erased instead of written has no attributes that the terminal's erase drops
  (`SnapshotLines.ReplayIff`, `SnapshotBytes.BytesReplayIff`): the replacement character U+FFFD is dropped, which
  shifts what follows.
- Which erase sequences are noticed can depend on how output is cut into chunks, because a control sequence that has
  not ended after 128 bytes is given up. `EraseScans.RobustIff` says exactly for which streams it does not: on the
  way through the stream, every sequence inside which a chunk can end more than 128 bytes after its start is no erase
  and, if another introducer closes it, hides nothing. Any longer erase is lost by some chunks
  (`EraseScans.LongEraseLost`); `EraseScans.LongEraseTwoWays` is a stream read in both ways.

## Model

| member | source | states |
|---|---|---|
| Percentages.DistributePercentageTotal | src/parent/pane/pane_percentage.cc:60-93 | rejects exactly empty or negative weights and totals outside 0..100; otherwise the parts sum to the total and are its largest-remainder shares |
| Percentages.LeftoverBound | src/parent/pane/pane_percentage.cc:81-92 | the leftover loop never indexes past the end and only ever bumps entries with a positive remainder |
| Percentages.OrderRank | src/parent/pane/pane_percentage.cc:81-88 | the stable sort serves larger remainders first and earlier entries first among equals |
| Percentages.DistributeSum | src/parent/pane/pane_percentage.cc:60-93 | every distribution sums to exactly the total, each part between 0 and the total |
| Percentages.DistributeQuota | src/parent/pane/pane_percentage.cc:60-93 | each part is strictly within one of its exact quota |
| Percentages.DistributeMonotone | src/parent/pane/pane_percentage.cc:60-93 | a larger weight, or an equal one that comes earlier, never gets less |
| Percentages.DistributeFixedPoint | src/parent/pane/pane_percentage.cc:60-93 | weights that already sum to the total are left alone |
| Percentages.DistributeRoundTrip | src/parent/pane/pane_percentage.cc:60-93 | scaling weights up to a larger total and back gives exactly the same weights |
| Percentages.EqualPercentages | src/parent/pane/pane_percentage.cc:45-58 | equal percentages are the normalized equal weights; no panes are rejected |
| Percentages.EqualIsNormalizedOnes | src/parent/pane/pane_percentage.cc:45-58 | the base-and-remainder formula agrees with largest-remainder normalization |
| Percentages.NormalizePercentages | src/parent/pane/pane_percentage.cc:33-43 | normalized percentages sum to 100 |
| PaneNodes.HoldsUnique | src/parent/pane/pane_layout.h:33-88 | a node map holds at most one tree below an id |
| PaneNodes.HoldsPlug | src/parent/pane/pane_layout.h:33-88 | a map holds a tree exactly when it holds any subtree and the context around it |
| LayoutMaps.LinkedOnce | src/parent/pane/pane_layout.h:33-88 | only the root has no parent; every other entry is linked exactly once, by the split it names as its parent, and no link leads out of the map |
| LayoutMaps.ParentsReachRoot | src/parent/pane/pane_layout.h:33-88 | parent links lead to the root: no set of other entries is closed under them |
| PaneLayouts.PaneLayout.Single | src/parent/pane/pane_layout.cc:80-85 | a fresh layout is one leaf and is consistent |
| PaneLayouts.PaneLayout.FindPane | src/parent/pane/pane_layout.cc:102-109 | finds a leaf showing the pane, or there is none |
| PaneLayouts.PaneLayout.LeafNodes | src/parent/pane/pane_layout.cc:111-115 | lists the leaves from left to right |
| PaneLayouts.PaneLayout.AllocateNodeId | src/parent/pane/pane_layout.cc:314-321 | hands out the next id, or rejects when ids run out |
| PaneLayouts.PaneLayout.SplitLeaf | src/parent/pane/pane_layout.cc:117-179 | rejected exactly if the target is no leaf, the pane is already shown or ids run out; otherwise the tree is the pure split |
| PaneEdits.SplitProps | src/parent/pane/pane_layout.cc:117-179 | a split inserts one adjacent leaf, adds only new ids and keeps all sums |
| PaneEdits.SplitAlternates | src/parent/pane/pane_layout.cc:117-179 | a split keeps axes alternating |
| PaneLayouts.PaneLayout.RemoveLeaf | src/parent/pane/pane_layout.cc:181-225 | removes the leaf, closes its level up and returns the next leaf, or the previous one at the end |
| PaneEdits.RemoveProps | src/parent/pane/pane_layout.cc:181-225 | removal deletes exactly one leaf and keeps every split sound |
| PaneEdits.RemoveAlternates | src/parent/pane/pane_layout.cc:181-225 | removal keeps axes alternating |
| PaneLayouts.PaneLayout.RotateSplit | src/parent/pane/pane_layout.cc:227-237 | turns every axis below the split and flattens it into its parent if their axes now agree |
| PaneEdits.RotateProps | src/parent/pane/pane_layout.cc:227-237 | rotation leaves the leaf sequence unchanged and all splits sound |
| PaneEdits.RotateAlternates | src/parent/pane/pane_layout.cc:227-237 | rotation keeps axes alternating |
| PaneLayouts.PaneLayout.RotateSiblingRange | src/parent/pane/pane_layout.cc:239-300 | groups a proper range of siblings below a new split of the other axis; rejected exactly otherwise |
| PaneEdits.GroupedProps | src/parent/pane/pane_layout.cc:239-300 | grouping adds one id and leaves the leaf sequence unchanged |
| PaneEdits.GroupedAlternates | src/parent/pane/pane_layout.cc:239-300 | grouping keeps axes alternating |
| PaneLayouts.PaneLayout.SetSplitPercentages | src/parent/pane/pane_layout.cc:302-312 | stores the normalized weights of a split and touches nothing else |
| PaneLayouts.PaneLayout.ToggleSplitAxes | src/parent/pane/pane_layout.cc:335-352 | turns the axis of exactly the splits below a node |
| PaneLayouts.PaneLayout.DissolveUnarySplit | src/parent/pane/pane_layout.cc:354-406 | replaces a split by its only child, promoting grandchildren that match the level above |
| PaneEdits.DissolveProps | src/parent/pane/pane_layout.cc:354-406 | dissolving keeps the leaves and the sums |
| PaneLayouts.PaneLayout.FlattenMatchingSplitChildren | src/parent/pane/pane_layout.cc:408-442 | replaces every child that repeats the axis by its own children |
| PaneEdits.FlattenAlternates | src/parent/pane/pane_layout.cc:408-442 | flattening one level is enough: what it promotes already has the other axis |
| PaneMoves.IsAncestor | src/parent/pane/pane_move.cc:183-192 | the walk up the parent links finds exactly the nodes above |
| PaneMoves.Validate | src/parent/pane/pane_move.cc:155-181 | accepts exactly a slice of siblings that overlaps the target nowhere and is not the whole root level |
| PaneMoves.ReorderAtSameLevel | src/parent/pane/pane_move.cc:194-231 | reorders the level; unchanged exactly if the range is pasted back where it was |
| PaneMoves.Extract | src/parent/pane/pane_move.cc:233-278 | leaves the remainder and the detached source as two trees in one map; rejected only when a group needs an id and none is left |
| PaneMoves.DetachChild | src/parent/pane/pane_move.cc:280-290 | erases the child and scales its siblings to a hundred |
| PaneMoves.InsertAtTarget | src/parent/pane/pane_move.cc:292-300 | places the source next to the target, joining its level or wrapping it |
| PaneMoves.InsertIntoMatchingSplit | src/parent/pane/pane_move.cc:302-324 | halves the target share and puts the source, taken apart if its axis matches, next to it |
| PaneMoves.FlattenSource | src/parent/pane/pane_move.cc:326-338 | a source of the placement axis is replaced by its children with the share distributed |
| PaneMoves.WrapTarget | src/parent/pane/pane_move.cc:340-373 | a wrapper takes the place of the target |
| PaneMoves.MoveIn | src/parent/pane/pane_move.cc:105-122 | the whole move on a working copy |
| PaneMoves.MovePaneSelection | src/parent/pane/pane_move.cc:378-386 | rejected exactly for invalid moves or exhausted ids, and then the layout is untouched; otherwise the moved tree |
| MoveTheorems.MoveCutsAndPastes | src/parent/pane/pane_move.cc:105-373 | the selected block of leaves is cut out and pasted, in order, directly before or after the block of the target, through grouping, extraction, wrapping and dissolving |
| MoveTheorems.CutAndPasteIsUnique | src/parent/pane/pane_move.cc:105-373 | there is only one leaf sequence that fits this description |
| MoveTheorems.MoveAlternatesIff | src/parent/pane/pane_move.cc:292-373 | axes keep alternating exactly if the target is not a split along the placement axis |
| MoveTrees.TargetStays | src/parent/pane/pane_move.cc:233-278 | taking the source out leaves the target subtree as it was |
| LayoutWitnesses.StackedReached | src/parent/pane/pane_layout.cc:117-179 | the witness layout is two splits away from a fresh one |
| LayoutWitnesses.DropJoinsAxes | src/parent/pane/pane_move.cc:340-373 | a valid drop after which a split contains a split of its own axis |
| PaneSwaps.ExchangeLinks | src/parent/pane/pane_move.cc:139-146 | replacing the first link to each node renames every link, and the parents are traded |
| PaneSwaps.TradedHolds | src/parent/pane/pane_move.cc:139-146 | the map with traded links and parents holds the exchanged tree |
| PaneSwaps.FlattenDrops | src/parent/pane/pane_move.cc:147-150 | flattening a split makes another disappear exactly if that is its child along the same axis |
| PaneSwaps.SwapPaneNodes | src/parent/pane/pane_move.cc:388-395 | does nothing for equal nodes, succeeds exactly for separate nodes whose levels do not collide, and otherwise leaves the layout untouched |
| SwapTrees.FindFork | src/parent/pane/pane_move.cc:124-152 | separate nodes sit below different children of one split |
| SwapTrees.ExchangeFork | src/parent/pane/pane_move.cc:124-152 | exchanging them fills the two holes the other way round; all slots keep their shares |
| SwapTheorems.SwapExchangesBlocks | src/parent/pane/pane_move.cc:124-152 | leaves A, source, B, target, C become A, target, B, source, C |
| SwapTheorems.AlternatingSwappable | src/parent/pane/pane_move.cc:124-152 | in an alternating layout a swap of separate nodes always succeeds |
| SwapTheorems.SwapAlternates | src/parent/pane/pane_move.cc:147-150 | a swap keeps axes alternating |
| SwapTheorems.SwapTwiceIff | src/parent/pane/pane_move.cc:124-152 | swapping two separate nodes of an alternating layout twice restores it if and only if neither has the axis of the level the other one stands in, and that is also when both are still there after the first swap |
| SwapTheorems.SwapLeavesTwice | src/parent/pane/pane_move.cc:124-152 | swapping two panes twice restores an alternating layout |
| LayoutWitnesses.SwapOneSided | src/parent/pane/pane_move.cc:147-150 | after such a drop a swap is rejected from one side and accepted from the other |
| PaneGeometries.PaneGeometry.Append | src/parent/pane/pane_geometry.cc:53-100 | assigns every node its region and appends the separators in order |
| PaneGeometries.CalculatePaneGeometry | src/parent/pane/pane_geometry.cc:117-125 | rejects negative sizes; otherwise leaf regions and separators tile the rectangle |
| PaneGeometries.LayoutTiles | src/parent/pane/pane_geometry.cc:53-100 | each cell of the rectangle lies in exactly one leaf or separator and no other cell lies in any, including zero sizes and too little room for separators |
| PaneGeometries.ExtentQuota | src/parent/pane/pane_geometry.cc:13-44 | an extent is strictly within one cell of its exact percentage; zero percent gets nothing |
| PaneNavigations.FindImmediateDirectionalPane | src/parent/pane/pane_navigation.cc:103-129 | finds the first best-rated shown leaf ahead, or none exactly if no leaf lies ahead |
| PaneNavigations.NearestUnique | src/parent/pane/pane_navigation.cc:103-129 | that leaf is determined |
| PaneNavigations.StepsFurther | src/parent/pane/pane_navigation.cc:54-101 | every step reaches strictly further, so no leaf is met twice |
| PaneNavigations.FindEligibleDirectionalPane | src/parent/pane/pane_navigation.cc:140-160 | the step limit never cuts the search short: the result is that of the unlimited search |
| PaneNavigations.FindsUnique | src/parent/pane/pane_navigation.cc:140-160 | the unlimited search has one result, an eligible leaf or none |
| PaneSelections.Single | src/parent/pane/pane_selection.cc:27-30 | one node of the layout; rejected exactly if it is missing |
| PaneSelections.RangeSelection | src/parent/pane/pane_selection.cc:32-57 | the slice between two children of one parent with anchor and active at its ends; rejected exactly if parents differ |
| PaneSelections.Step | src/parent/pane/pane_selection.cc:78-96 | moves the active end by one sibling and keeps the anchor; nothing at either end |
| PaneSelections.Promote | src/parent/pane/pane_selection.cc:98-104 | selects the parent as one node |
| PaneSelections.Descend | src/parent/pane/pane_selection.cc:106-117 | selects the first child of a single selected split |
| PaneRotations.RotatePaneSelectionLevel | src/parent/pane/pane_rotate.cc:38-75 | rejected exactly if a group is needed and ids are exhausted, false exactly for a lone pane; otherwise the rotated tree, and a selection that is a valid slice of it: the group, the children of the rotated split, or the level of a selected pane, anchored at the same end if a whole level was selected |
| PaneRotations.RotatedLevel | src/parent/pane/pane_rotate.cc:57-74 | the children of a rotated split stand next to each other at their own level or in the level above |
| RotationTheorems.RotateGroupTwice | src/parent/pane/pane_rotate.cc:53-64 | rotating a fresh group restores the layout with its percentages exactly if no unselected sibling has the axis of the level |
| RotationTheorems.RotateSplitTwice | src/parent/pane/pane_rotate.cc:38-75 | rotating any split or whole level and then the selection this leaves: the root comes back; a split inside another comes back, up to its id, exactly if its axis differs from the outer one, no sibling has the outer axis, and its percentages are restorable |
| RotationTheorems.RotateAlternatingTwice | src/parent/pane/pane_rotate.cc:38-75 | in an alternating layout a group and the root always come back, and a split inside another exactly if its percentages are restorable |
| RoundedShares.RestoredIff | src/parent/pane/pane_percentage.cc:60-93 | percentages distributed over a slot and normalized again are the old ones exactly if no part was rounded by a whole slot and every part rounded down lost more than any other gained, the earlier one on a tie; in an empty slot exactly if they are equal shares |
| RoundedShares.ExcessIs | src/parent/pane/pane_percentage.cc:60-93 | how far a part was rounded can be computed: minus the remainder of its exact quota, or a hundred less it |
| RoundedShares.WholeSharesRoundBack | src/parent/pane/pane_percentage.cc:60-93 | percentages survive if every part of the slot is whole |
| RotationWitnesses.TrioReached | src/parent/pane/pane_rotate.cc:57-64 | the witness layout is three splits and one equalization away from a fresh one |
| RotationWitnesses.ThirdsDoNotSurvive | src/parent/pane/pane_rotate.cc:57-64 | rotating its lower level twice gives 34, 34, 32 for 34, 33, 33 |
| PaneResizes.ResizePaneSelection | src/parent/pane/pane_resize.cc:78-108 | changes exactly if there is an unselected sibling and the clamped total differs, and then to the proportional shares; the selection stays valid |
| PaneResizes.ResizedTotals | src/parent/pane/pane_resize.cc:78-108 | the selection total becomes clamp(old + delta, 0, 100) exactly, the siblings get the complement, and storing them normalizes nothing |
| PaneResizes.EqualizePaneSelection | src/parent/pane/pane_resize.cc:110-136 | evens out a single split inside or the range among itself; reports a change exactly if there is one |
| PaneResizes.EqualizePaneSelectionLevel | src/parent/pane/pane_resize.cc:138-145 | evens out the whole level |
| PaneResizes.EvenedTotals | src/parent/pane/pane_resize.cc:123-134 | evening out keeps the combined share of the range and all other shares |
| PaneResizes.EvenedEven | src/parent/pane/pane_resize.cc:123-134 | the evened shares differ by one at most, the earlier ones being larger |
| PaneResizes.Stored100 | src/parent/pane/pane_layout.cc:302-312 | percentages that sum to 100 are stored unchanged |
| PaneMoveSessions.EligibleIsValid | src/parent/pane/pane_move_session.cc:141-148 | the eligibility test is exactly the validation of the mover, and implies the overlap and root checks of swap; a selected root or whole root level can never get a target |
| PaneMoveSessions.SessionAccepted | src/parent/pane/pane_move_session.cc:117-130 | a reachable session with a target is rejected only when ids run out or swapped levels collide, hence never in an alternating layout with ids left |
| PaneMoveSessions.OutlookLeaves | src/parent/pane/pane_move_session.cc:117-139 | whatever a session makes of a layout, the leaves are the same |
| PaneMoveSessions.OutlookAlternates | src/parent/pane/pane_move_session.cc:117-139 | axes go on alternating unless the source is dropped on a split along its own axis |
| PaneMoveSessions.PaneMoveSession.TargetIsEligible | src/parent/pane/pane_move_session.cc:141-148 | decides eligibility |
| PaneMoveSessions.PaneMoveSession.StepTarget | src/parent/pane/pane_move_session.cc:41-56 | steps to what the eligibility-filtered search finds, from the target or the active source |
| PaneMoveSessions.PaneMoveSession.PromoteTarget | src/parent/pane/pane_move_session.cc:58-72 | the parent, exactly if it is eligible |
| PaneMoveSessions.PaneMoveSession.DescendTarget | src/parent/pane/pane_move_session.cc:74-88 | the first eligible child, exactly if there is one |
| PaneMoveSessions.PaneMoveSession.ToggleSwap | src/parent/pane/pane_move_session.cc:90-97 | exactly while targeting with a single source |
| PaneMoveSessions.PaneMoveSession.LockTarget | src/parent/pane/pane_move_session.cc:99-106 | exactly while targeting a move with a target |
| PaneMoveSessions.PaneMoveSession.SetDropDirection | src/parent/pane/pane_move_session.cc:108-115 | stores the direction once locked |
| PaneMoveSessions.PaneMoveSession.Preview | src/parent/pane/pane_move_session.cc:117-130 | a fresh layout holding the moved or swapped tree, or nothing, or a rejection |
| PaneMoveSessions.PaneMoveSession.Confirm | src/parent/pane/pane_move_session.cc:132-139 | replaces the layout by the preview and nothing else |
| Trays.Tray.constructor | src/parent/tray/tray.cc:189-209 | a fresh tray shows one focused pane |
| Trays.Tray.SplitFocusedPane | src/parent/tray/tray.cc:312-326 | rejected exactly if pane or node ids are exhausted; otherwise the new pane stands directly next to the focused one, joining its level or in a new split, and gets the focus |
| Trays.Tray.FocusPane | src/parent/tray/tray.cc:328-342 | focuses panes of the tray only and ends the interaction when the focus changes |
| Trays.Tray.FocusPaneDirection | src/parent/tray/tray.cc:344-354 | focuses the pane of the nearest leaf of the current geometry; a maximized view stays maximized |
| Trays.Tray.CloseFocusedPane | src/parent/tray/tray.cc:356-374 | closes the focused pane unless it is the last and focuses its neighbour |
| Trays.Tray.ReapExitedPanes | src/parent/tray/tray.cc:258-293 | exactly the ended panes disappear and the order of the rest stays; a surviving focus stays, and otherwise goes to the first pane left behind it, or else the last one left before it; when all have ended nothing changes |
| Trays.Tray.ToggleMaximized | src/parent/tray/tray.cc:376-385 | never with a single pane; ends selection and move |
| Trays.Tray.ToggleSelection | src/parent/tray/tray.cc:389-402 | selects the focused leaf or clears the selection |
| Trays.Tray.StepSelection | src/parent/tray/tray.cc:404-436 | moves the active end by one, exactly along the axis of the level and not beyond its ends |
| Trays.Tray.PromoteSelection | src/parent/tray/tray.cc:438-448 | selects the parent, exactly if there is one |
| Trays.Tray.DescendSelection | src/parent/tray/tray.cc:450-460 | selects the first child, exactly of a single split |
| Trays.Tray.ResizeSelectedPanes | src/parent/tray/tray.cc:462-471 | resizes the selection or the focused pane and ends maximizing |
| Trays.Tray.EqualizeSelectedPanes | src/parent/tray/tray.cc:473-484 | evens out the selection, or the level of the focused pane |
| Trays.Tray.RotateSelectedPaneLevel | src/parent/tray/tray.cc:486-498 | rejected exactly if a group needs an id and none is left, unchanged exactly for a lone pane; otherwise rotates and lets an explicit selection follow |
| Trays.Tray.ToggleMove | src/parent/tray/tray.cc:500-516 | begins a move from the selection or the focused pane, or gives it up |
| Trays.Tray.StepMoveTarget | src/parent/tray/tray.cc:518-525 | aims at what the eligibility-filtered search over the shown regions finds; changes exactly while targeting if it finds one |
| Trays.Tray.PromoteMoveTarget | src/parent/tray/tray.cc:527-529 | aims at the parent, exactly while targeting and if it is eligible |
| Trays.Tray.DescendMoveTarget | src/parent/tray/tray.cc:531-533 | aims at the first eligible child, exactly while targeting and if there is one |
| Trays.Tray.ToggleMoveSwap | src/parent/tray/tray.cc:535-537 | exactly while targeting with a single source |
| Trays.Tray.SetMoveDropDirection | src/parent/tray/tray.cc:539-541 | exactly once locked and if the direction is new |
| Trays.Tray.AdvanceMove | src/parent/tray/tray.cc:543-559 | locks the target, exactly if there is one, or carries out exactly what the session previews; rejected exactly if the session is, with the tray untouched; the panes stay the same |
| TrayRuns.Handle | src/parent/tray/tray.cc:242-559 | every command, window size and exit turns the moment before into one that the relation for it allows, which fixes layout, panes, focus, maximized view, selection and move; the leaves are the same unless panes come or go, and only a drop onto a split of its own axis can end alternation |
| TraySteps.PanesFollow | src/parent/tray/tray.cc:258-371 | only a split adds a pane, and one only; a pane goes only if it is focused and closed or its program has ended; only focusing, splitting, closing and exits move the focus |
| TrayRuns.PaneStays | src/parent/tray/tray.cc:258-371 | in every run a pane stays until it is closed or its program ends |
| TrayRuns.NeverReused | src/parent/tray/tray.cc:312-326 | in no run is the id of a pane that is gone given to another one |
| TrayRuns.Run | src/parent/tray/tray.cc:189-559 | at every moment of every run the panes are exactly the leaves of a sound tree, the focus is one of them, at most one of maximized view, selection and move is active, selections and sources of moves are slices of the layout of that moment and targets are eligible in it; consecutive moments are related by their event; axes alternate up to the first drop that joins equal axes; the run ends early exactly when all panes have ended |
| Utf8Prefixes.CompletePrefixSize | src/parent/terminal/screen/utf8_complete_prefix.cc:54-83 | the loop computes the prefix defined sequence by sequence |
| Utf8Prefixes.ChunkIndependent | src/parent/terminal/screen/utf8_complete_prefix.cc:54-83 | with p the prefix of a, the prefix of a + b is p and the prefix of the rest of a followed by b |
| Utf8Prefixes.HeldBack | src/parent/terminal/screen/utf8_complete_prefix.cc:54-83 | what is held back is at most three bytes and a proper prefix of a well-formed sequence |
| Utf8Prefixes.PlausibleIsGrammar | src/parent/terminal/screen/utf8_complete_prefix.cc:11-50 | the byte tests accept exactly the multi-byte sequences of section 4 of RFC 3629 |
| Utf8Prefixes.AppendUtf8 | src/parent/terminal/snapshot/terminal_snapshot_line.cc:27-54 | appends the encoding of a code point, or nothing for skipped ones |
| Utf8Prefixes.EncodeDecode | src/parent/terminal/snapshot/terminal_snapshot_line.cc:27-54 | an encoding is well formed and decodes to its code point as in section 3 of RFC 3629 |
| Utf8Prefixes.EncodingsComplete | src/parent/terminal/snapshot/terminal_snapshot_line.cc:27-54 | concatenated encodings are always passed on whole |
| ControlSequences.ParseControlSequence | src/parent/terminal/control_sequence/control_sequence_introducer_parser.cc:38-74 | the sequence up to its first final byte, with its first parameter or none that is understood |
| ControlSequences.ParseStable | src/parent/terminal/control_sequence/control_sequence_introducer_parser.cc:38-74 | later input does not change what was complete |
| TerminalScreens.TerminalScreen.Ingest | src/parent/terminal/screen/terminal_screen.cc:140-157 | fed bytes, pending control bytes and pending character bytes are all bytes ingested, in order, within 128 and 3 bytes; the new state is that of one pure step |
| TerminalScreens.TerminalScreen.IngestCompleteInput | src/parent/terminal/screen/terminal_screen.cc:174-226 | exactly the erases of one scan over what is there are noticed, and exactly what the scan may need again is kept |
| TerminalScreens.IngestAll | src/parent/terminal/screen/terminal_screen.cc:140-226 | for every chunking the terminal got the same bytes; the recorded erases, each read when exactly the bytes before it had been fed, are those of the whole stream if the stream is robust, and otherwise some other chunking records other erases |
| EraseScans.RobustIff | src/parent/terminal/screen/terminal_screen.cc:174-226 | the noticed erases are those of the whole stream under every chunking exactly if every sequence on the way that can be cut after 128 bytes is no erase and hides nothing behind another introducer |
| EraseScans.LongEraseLost | src/parent/terminal/screen/terminal_screen.cc:174-226 | a complete erase longer than 132 bytes, or than 129 if a character ends in the right place, is lost by some chunks, and it alone |
| EraseScans.LongEraseTwoWays | src/parent/terminal/screen/terminal_screen.cc:174-226 | the same bytes in one chunk and in two, noticed and not noticed |
| EraseScans.OrdinaryRobust | src/parent/terminal/screen/terminal_screen.cc:174-226 | streams are robust if sequences longer than 129 bytes are neither erases nor closed by another introducer |
| SnapshotBytes.RenderLine | src/parent/terminal/snapshot/terminal_snapshot_line.cc:157-201 | the printed bytes spell the token line that the replay results below are about, for every row, fill style and erase setting |
| SnapshotBytes.SgrSequence | src/parent/terminal/snapshot/terminal_cell_style.cc:94-131 | escape, bracket, the decimal parameters between separators, and the final byte |
| SnapshotBytes.LineHeard | src/parent/terminal/snapshot/terminal_snapshot_line.cc:27-201 | reading the bytes back gives exactly the style parameters, the code points and the erase that were written |
| SnapshotLines.StyleSelected | src/parent/terminal/snapshot/terminal_cell_style.cc:94-131 | selecting a style works whatever was selected before; other underlines than double come out single |
| SnapshotLines.FaithfulReplay | src/parent/terminal/snapshot/terminal_snapshot_line.cc:157-201 | playing the line on a blank row shows every text and effective style and ends in the default style; only an erased end may lose attributes |
| SnapshotLines.ReplayIff | src/parent/terminal/snapshot/terminal_snapshot_line.cc:27-201 | a row is reproduced if and only if all its code points can be written, no underline is curly, and an erased end has nothing that the erase drops |
| SnapshotBytes.BytesReplayIff | src/parent/terminal/snapshot/terminal_snapshot_line.cc:27-201 | the same for the bytes, read by a terminal that joins combining characters to the one before |
| PaneViewFrames.EncodeFrame | src/parent/view/pane_view_protocol.cc:94-128 | rejects exactly long keys, sizes that are not positive and large bodies |
| PaneViewFrames.FrameRead | src/parent/view/pane_view_protocol.cc:118-164 | a frame followed by anything is read back as its message, leaving what follows |
| PaneViewFrames.ReadIsFrame | src/parent/view/pane_view_protocol.cc:130-164 | nothing else is read as a message |
| PaneViewFrames.CutFrame | src/parent/view/pane_view_protocol.cc:130-141 | the start of a frame asks for more |
| PaneViewFrames.BigRoundTrip | src/parent/view/pane_view_protocol.cc:20-57 | big-endian numbers survive |
| PaneViewFrames.FrameReader.Decode | src/parent/view/pane_view_protocol.cc:130-164 | takes one message off the buffer; a frame of impossible size stays, any other frame that makes no sense is dropped |
| PaneViewFrames.FrameReader.DecodeAll | src/bridge/server/pty_websocket_hub.cc:185-204 | takes all whole messages off the buffer up to one that makes no sense, and leaves exactly the rest |
| PaneViewFrames.FramesRead | src/bridge/server/pty_websocket_hub.cc:185-204 | frames in a row with the start of another behind them give their messages in order and leave that start |
| PaneViewFrames.ReadInChunks | src/bridge/server/pty_websocket_hub.cc:185-204 | it makes no difference where the stream is cut, malformed or not |
| PaneViewFrames.PrefixDone | src/bridge/server/pty_websocket_hub.cc:185-204 | no part of a row of frames that has arrived is rejected |
| PaneViewFrames.ReadChunks | src/bridge/server/pty_websocket_hub.cc:178-204 | for any chunking, appending and decoding gives the messages of the whole stream; for a row of frames exactly its messages in order, leaving the started one |
| InputDecoders.CommandBytes | src/parent/input/parent_input_protocol.cc:14-168 | commands and command bytes determine each other |
| InputDecoders.InputDecoder.Consume | src/parent/input/parent_input_decoder.cc:20-57 | exactly the events of the chunk: bytes typed in a row make one event, commands one each, and a prefix that leads to no command two |
| InputDecoders.GroupedFlattens | src/parent/input/parent_input_decoder.cc:20-57 | these events spell exactly the typed bytes and commands of the chunk, and none is empty |
| InputDecoders.SplitAnywhere | src/parent/input/parent_input_decoder.cc:20-57 | splitting the input anywhere gives the same typed bytes and commands |
| InputDecoders.Lossless | src/parent/input/parent_input_decoder.cc:20-57 | written out again, with a prefix still open, they are the input |
| InputDecoders.ConsumeAll | src/parent/input/parent_input_decoder.cc:20-57 | for every chunking the events are the same up to grouping of typed bytes, and nothing is lost |
| WebsocketHubs.PtyWebsocketHub.AddClient | src/bridge/server/pty_websocket_hub.cc:76-94 | a new client gets the kept terminal output, the latest status and the kept pane output, which is the longest end that fits into 256 KiB |
| WebsocketHubs.PtyWebsocketHub.SendToClients | src/bridge/server/pty_websocket_hub.cc:143-151 | exactly the clients whose send succeeds stay, each with one more message |
| WebsocketHubs.PtyWebsocketHub.BroadcastTerminalOutput | src/bridge/server/pty_websocket_hub.cc:107-118 | the backlog is the last 64 KiB of all output |
| WebsocketHubs.PtyWebsocketHub.BroadcastParentStatus | src/bridge/server/pty_websocket_hub.cc:120-128 | the status becomes the latest for everyone |
| WebsocketHubs.PtyWebsocketHub.BroadcastPaneOutput | src/bridge/server/pty_websocket_hub.cc:130-141 | the backlog is the longest end of all messages that fits into 256 KiB, or the last one alone, and its tracked size is the real sum |
| WebsocketHubs.Take | src/bridge/server/pty_websocket_hub.cc:76-151 | one step adds exactly the joining client, or takes exactly the leaving one off, and otherwise disconnects exactly the clients to which a send failed |
| WebsocketHubs.Run | src/bridge/server/pty_websocket_hub.cc:76-151 | in every interleaving each join step has a client of its own, and only these are connected; such a client stays connected until it leaves unless a send to it fails, and if none failed it holds, as of now or of when it left, the output from 64 KiB before its join on, the pane messages from the longest end kept then on, both without gap or duplicate, and the latest status |

## Left out

- Pane processes, pseudo-terminals, sockets, poll and signals: pane exits and failing sends are nondeterministic events.
- Terminal emulation in libvterm, scrollback and reflow: the terminal is a byte log, and erases are positions in it.
- How an erase paints on the program's own screen: erases there are recorded positions. On the terminal a row is played back to, an erase keeps the whole style or its colors only.
- Characters of a row played back: which code points join the one before is a parameter, and control characters in cells are left out.
- Machine integers: percentages times extents, positions and control sequence parameters are unbounded here; ids and framed numbers have their real limits.
- What a tray keeps for each pane (its process and terminal): the pane map is modelled by its keys.
- Resizing of pane terminals after each tray command, and the rendering of trays, overlays, borders and footers.
- Tray manager, worktrees, file system, git and HTTP code.
- Conversion of the browser messages to tray commands, and the discriminator bytes of browser messages.
- Wide characters: playing a row back is stated for cells of one column; printing itself skips the second half of wide cells as the program does.
- The hub's threads: the split of the status stream into lines and the reading of the descriptors are not modelled; every locked section is one step.
- PaneMoveSessions.PaneMoveSession.StepTarget: eligible leaves are collected before the search instead of being tested one by one during it.
- Trays.Tray.SplitFocusedPane: starting the new program cannot fail here.
