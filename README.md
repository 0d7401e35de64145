# etk.docking: a verified model of the docking core

etk.docking lets an application arrange its panels in a tree of containers
that the user can re-arrange with the mouse. A *DockPaned* lays out child
widgets side by side, with a draggable *handle* between each pair. A
*DockGroup* shows a row of tabs. A *DockFrame* is a top-level window holding
one child, and a *DockLayout* ties the frames together and routes the
drag-and-drop events between them.

This project models the toolkit-independent core of that code in Dafny and
proves properties of the model:

- **Paned bookkeeping and arithmetic** (`etkdocking/dockpaned.py`). The
  paned's item and handle lists, with their invariant that n items have
  n - 1 handles. Inserting, removing and reordering items. The weight
  redistribution with `fair_scale`. Handle-drag resizing. The allocation
  loop that lays items and handles out back to back.
- **Drag-and-drop dispatch** (`lib/etk/docking/docklayout.py`). The magic
  border. Motion, drop, drag-end and drag-failed dispatch up the parent
  chain. The group and paned receivers. The `DockLayout` object that
  stores the last motion's leave callback and the drop's receiver.
- **Drag context** (`etkdocking/dnd.py`). `DockDragContext` and `reset`.
- **Geometry helpers** (`etkdocking/util.py`). `rect_contains`,
  `rect_overlaps` and `flatten`.

Modules, one per file:

- `Options`: the Option type.
- `PyList`: the Python list operations the code relies on (`list.insert`
  with its index clamping, `list.index`, `reversed`, `del`, `sum`).
- `Util`: `util.py`.
- `Dnd`: `dnd.py`.
- `PanedItems`: the records of `dockpaned.py` and the list bookkeeping.
- `FairScale`: `fair_scale`, as a method with the source's loops, proved
  against a recursive specification.
- `PanedWeights`: `_redistribute_weight`.
- `PanedResize`: `_redistribute_size`.
- `PanedLayout`: the layout arithmetic of `do_size_allocate`.
- `DockPanedModel`: the loops, and the `DockPaned` class whose methods
  update its lists in place.
- `DockTree`: the widget tree as a datatype. A widget is addressed by its
  path from a frame, and its parent chain is the prefixes of that path.
- `DockLayoutModel`: the handlers of `docklayout.py` and the `DockLayout`
  class.

Coordinates are whole pixels (`int`). Weights are `real`, so the arithmetic
is exact where the source uses floats. Child widgets are ids that carry
their given natural size, allocation and minimum size.

Two bugs turned up while stating the contracts, one in `drag_failed` and
one in `_redistribute_size`. Both are under "## Findings", with the code as
written modelled beside the corrected behaviour.

## Model

| member | source | states |
|---|---|---|
| PyList.PyInsertIndex | lib/etk/docking/docklayout.py:409 | where `list.insert(i, x)` puts `x`: negative indices count from the end, both ends clamp, and the result is always a valid insertion point |
| PyList.InsertAt | etkdocking/dockpaned.py:212 | inserting keeps the prefix, puts the new element at `i` and shifts the rest by one |
| PyList.InsertAtMultiset | etkdocking/dockpaned.py:212 | inserting adds exactly the new element |
| PyList.RemoveAtMultiset | etkdocking/dockpaned.py:261 | removing loses exactly the element removed |
| PyList.RemoveInsert | etkdocking/dockpaned.py:1141-1142 | removing what was just inserted gives the list back |
| PyList.PyIndex | lib/etk/docking/docklayout.py:385-387 | `list.index`: the first position holding the element |
| PyList.Reversed | lib/etk/docking/docklayout.py:408 | `reversed`: same length, element `i` is element `n - 1 - i` of the input |
| PyList.ReversedTwice | lib/etk/docking/docklayout.py:408 | reversing twice gives the list back |
| Util.ContainsIsOverlapsOffBorder | etkdocking/util.py:28-66 | `rect_contains` holds exactly when `rect_overlaps` holds and the point is not on the border |
| Util.ContainsImpliesOverlaps | etkdocking/util.py:44-66 | every contained point overlaps |
| Util.BorderOverlapsButIsNotContained | etkdocking/util.py:31-33 | a point on an edge overlaps the rectangle but is not contained in it |
| Util.FlattenRootFirst | etkdocking/util.py:114-133 | the walk yields every node exactly once, the root first; a node whose child getter raised TypeError yields only itself |
| Util.FlattenAllAppend | etkdocking/util.py:129-131 | walking two runs of siblings is walking one after the other |
| Util.FlattenIsPreorder | etkdocking/util.py:127-131 | pre-order: the i-th child's subtree comes right after the root and the subtrees of the children before it |
| Dnd.Cleared | etkdocking/dnd.py:59-66 | after `reset` the context is not dragging and every other field is None |
| Dnd.DockDragContext.constructor | etkdocking/dnd.py:56-57 | a fresh context is a reset one |
| Dnd.DockDragContext.Reset | etkdocking/dnd.py:59-66 | every field is cleared whatever the old state, so two resets leave what one does |
| PanedItems.InitialWeight | etkdocking/dockpaned.py:214-233 | an explicit nonzero weight becomes the request; without one a sole item gets weight 1 and any other item only a positive request; exactly one of weight and request is set, the weight within [0, 1] |
| PanedItems.InitialShare | etkdocking/dockpaned.py:220-233 | without an explicit weight, an item that is not alone requests its natural extent over the effective size less a handle when both are known and positive, and `FALLBACK_WEIGHT` otherwise |
| PanedItems.GetNthItem | etkdocking/dockpaned.py:1082-1099 | the child at `n`, and None exactly when `n` is out of range |
| PanedItems.ItemNum | etkdocking/dockpaned.py:1064-1080 | the first index holding the child, and None exactly when no item holds it |
| PanedItems.ItemNumOfNthItem | etkdocking/dockpaned.py:1064-1099 | `item_num` and `get_nth_item` are inverse when the children are distinct |
| PanedItems.HandleToRemove | etkdocking/dockpaned.py:278-293 | the handle deleted with item `k` is handle `k`, or handle `k - 1` when item `k` was the last |
| PanedItems.ReorderTarget | etkdocking/dockpaned.py:1137-1138 | the requested index when it is in range, else the end |
| PanedItems.ReorderedPermutes | etkdocking/dockpaned.py:1140-1142 | reordering is a permutation that puts the item at its target and keeps the others in order |
| PanedItems.Interleaved | etkdocking/dockpaned.py:150-171 | item `k` at `2k`, handle `k` at `2k + 1`, first and last part an item |
| PanedItems.RemoveKeepsDistinct | etkdocking/dockpaned.py:239-265 | removing an item keeps the children distinct and loses exactly its child |
| PanedItems.InsertKeepsDistinct | etkdocking/dockpaned.py:173-212 | inserting a child not yet present keeps the children distinct |
| PanedItems.ReorderKeepsDistinct | etkdocking/dockpaned.py:1121-1143 | reordering keeps the children distinct |
| PanedItems.HandleAt | etkdocking/dockpaned.py:304-319 | the first handle whose area overlaps the point, borders included; None exactly when none does |
| PanedItems.HandleIndex | etkdocking/dockpaned.py:875 | the position of the handle with this id, None exactly when it is gone |
| PanedItems.IndexOf | etkdocking/dockpaned.py:882-887 | the position of an index among the candidates, None when absent |
| FairScale.FairScaleOf | etkdocking/dockpaned.py:1146-1188 | one weight per pair, none below its pair's minimum |
| FairScale.FairScale | etkdocking/dockpaned.py:1169-1188 | the source's while/for/break loop returns `FairScaleOf`; each restart pins one more entry, so the loop ends |
| FairScale.ScaleRound | etkdocking/dockpaned.py:1177-1187 | one pass of the inner loop: shares until the first entry that falls below its minimum, which is pinned |
| FairScale.FirstBelow | etkdocking/dockpaned.py:1177-1185 | the first unpinned entry whose share falls below its minimum |
| FairScale.FinalRoundConserves | etkdocking/dockpaned.py:1172-1187 | the final round keeps every pin, and the weight left is the total minus the pinned minimums |
| FairScale.FairScaleSum | etkdocking/dockpaned.py:1172-1187 | when the last round's unpinned requests have a nonzero sum, the weights add up to the total |
| FairScale.FairScaleFeasible | etkdocking/dockpaned.py:1146-1188 | with positive requests and a total that covers all minimums, the weights add up to the total |
| FairScale.FairScaleAllPinned | etkdocking/dockpaned.py:1146-1188 | when the total does not cover the minimums, every entry is pinned at its minimum |
| FairScale.FairScaleExampleProportional | etkdocking/dockpaned.py:1153-1154 | `fair_scale(.7, ((.3, .2), (.5, .1)))` is `[0.2625, 0.4375]` exactly |
| FairScale.FairScaleExamplePinFirst | etkdocking/dockpaned.py:1155-1156 | at .5 it is `[0.2, 0.3]` |
| FairScale.FairScaleExampleLow | etkdocking/dockpaned.py:1157-1158 | at .4 it is `[0.2, 0.2]` |
| PanedWeights.PickedMembers | etkdocking/dockpaned.py:434-435 | exactly the items whose request's truth matches are picked |
| PanedWeights.PickedLocated | etkdocking/dockpaned.py:434-435 | no item is picked twice |
| PanedWeights.PickedIncreasing | etkdocking/dockpaned.py:434-435 | the picked indices keep the items' order |
| PanedWeights.SetWeightsAt | etkdocking/dockpaned.py:447-457 | the item at the k-th index takes the k-th weight and loses its request when asked; an item at no index is unchanged |
| PanedWeights.WeightsRedistributed | etkdocking/dockpaned.py:406-457 | `_redistribute_weight`, failing exactly where it divides by zero |
| PanedWeights.WeightsOnlyChange | etkdocking/dockpaned.py:406-457 | only weights and requests change, whether or not it finishes |
| PanedWeights.MinSizesKept | etkdocking/dockpaned.py:425-432 | the first loop changes no minimum size |
| PanedWeights.RoundsFloor | etkdocking/dockpaned.py:446-457 | the two rounds clear every request, change only weights, and leave each weight at or above the item's minimum share |
| PanedWeights.OthersScaledAt | etkdocking/dockpaned.py:447-451 | first round: items without a request take the weight `fair_scale` gave them |
| PanedWeights.RequestsScaledAt | etkdocking/dockpaned.py:453-457 | second round: requesting items take their new weight and lose their request |
| PanedWeights.WeightsRedistributedAt | etkdocking/dockpaned.py:406-457 | afterwards every request is cleared and every weight is at least the item's scaled minimum share |
| PanedWeights.WeightsSumToOne | etkdocking/dockpaned.py:437-457 | the weights add up to 1 whenever the requesting items fit, or nothing is requested and the others fit |
| PanedResize.Adjustment | etkdocking/dockpaned.py:391-394 | the take is the distance still wanted or all the candidate can spare, whichever is less |
| PanedResize.Remaining | etkdocking/dockpaned.py:382-402 | the distance still wanted stays between 0 and the drag |
| PanedResize.Take | etkdocking/dockpaned.py:382-402 | a candidate gives only if it has pixels to spare, never more than it can spare nor than is still wanted |
| PanedResize.TakenTotal | etkdocking/dockpaned.py:382-402 | the loop takes the drag distance, or everything the candidates can spare when that is less |
| PanedResize.StaysStopped | etkdocking/dockpaned.py:401-402 | once nothing more is wanted no later candidate gives anything |
| PanedResize.Resized | etkdocking/dockpaned.py:365-404 | fails exactly when a candidate has pixels to give and the effective size is 0, with nothing changed; only requests change; the enlarged item's request is the corrected one (see Findings) |
| PanedResize.RedistributeShrinks | etkdocking/dockpaned.py:384-399 | a giving candidate requests its extent less what it gave and never drops below its minimum; one that gives nothing is left alone |
| PanedResize.RedistributeEnlarges | etkdocking/dockpaned.py:396 | the enlarged item grows by exactly what was taken; when nothing is taken nothing changes |
| PanedResize.RedistributeLeavesOthers | etkdocking/dockpaned.py:365-404 | items that are neither enlarged nor candidates keep their state |
| PanedResize.ResizedLeavesOthers | etkdocking/dockpaned.py:365-404 | the same holds whether or not the resize finishes |
| PanedResize.ShrinkBefore | etkdocking/dockpaned.py:882 | the candidates for a drag towards the start are the items up to the handle, nearest first |
| PanedResize.ShrinkAfter | etkdocking/dockpaned.py:887 | the candidates for a drag towards the end are the items after the handle, nearest first |
| PanedResize.RedistributeSizeAsWrittenLosesPixels | etkdocking/dockpaned.py:396 | as written, a 50-pixel drag over candidates sparing 20 and 50 takes 50 pixels but the enlarged item grows by 30 |
| PanedLayout.RoundHalfEven | etkdocking/dockpaned.py:718 | Python 3 `round`: within half of the value, ties to even |
| PanedLayout.LayoutBackToBack | etkdocking/dockpaned.py:712-747 | each handle starts where its item ends and is exactly the handle size; the next item starts where it ends; the first item starts at 0 and the last ends at the allocation's extent |
| PanedLayout.LayoutCovers | etkdocking/dockpaned.py:717-745 | the item extents and handles add up to the allocation's extent |
| PanedLayout.LayoutFills | etkdocking/dockpaned.py:712-747 | every pixel of the allocation goes to an item or a handle |
| PanedLayout.RoundingError | etkdocking/dockpaned.py:718 | rounding each share loses at most half a pixel per item |
| PanedLayout.RemainderBound | etkdocking/dockpaned.py:725-733 | with weights summing to 1, the last item's extent is within half a pixel per item of its own share |
| DockPanedModel.HandleCursor | etkdocking/dockpaned.py:856-860 | a horizontal paned's handles show the east-west cursor, a vertical one's the north-south |
| DockPanedModel.InsertKeepsFresh | etkdocking/dockpaned.py:267-276 | a new handle gets a fresh id |
| DockPanedModel.RemoveKeepsFresh | etkdocking/dockpaned.py:278-293 | removing a handle keeps the ids distinct |
| DockPanedModel.InsertPosition | etkdocking/dockpaned.py:195-196 | the requested index, or the end for None or a negative index |
| DockPanedModel.DragTarget | etkdocking/dockpaned.py:863-875 | the dragged handle's index and the drag distance along the orientation; None exactly where the source raises |
| DockPanedModel.PressThenDrag | etkdocking/dockpaned.py:803-811 | after a press grabs a handle, the drag distance is how far the pointer moved along the orientation |
| DockPanedModel.DragPlan | etkdocking/dockpaned.py:878-891 | towards the start the enlarged item is the one after the handle and the candidates are exactly the items up to the handle; towards the end it is the one before the handle and the candidates exactly the items after it; the enlarged item is never a candidate |
| DockPanedModel.Dragged | etkdocking/dockpaned.py:878-891 | the drag keeps the number of items, and a drag that fails (zero effective size) changes nothing; which items it enlarges and shrinks is `DragPlan`'s |
| DockPanedModel.DragLeavesFarSide | etkdocking/dockpaned.py:878-891 | items beyond the enlarged one keep their state, and a zero drag changes nothing |
| DockPanedModel.SizeLoop | etkdocking/dockpaned.py:382-402 | the loop of `_redistribute_size`, with the corrected enlarge request, computes `Resized` |
| DockPanedModel.ShrinkOne | etkdocking/dockpaned.py:384-402 | one round, with the corrected enlarge request, keeps the loop invariant |
| DockPanedModel.KeepFixed | etkdocking/dockpaned.py:429-432 | the first loop of `_redistribute_weight` computes `ScaleFixed` |
| DockPanedModel.WriteWeights | etkdocking/dockpaned.py:447-457 | a zip loop computes `SetWeights` |
| DockPanedModel.TwoRounds | etkdocking/dockpaned.py:446-457 | the two `fair_scale` rounds, others first |
| DockPanedModel.WeightLoops | etkdocking/dockpaned.py:421-457 | the loops compute `WeightsRedistributed` |
| DockPanedModel.LayOut | etkdocking/dockpaned.py:707-747 | the allocation loop computes the laid-out items and handles |
| DockPanedModel.EffectiveSize | etkdocking/dockpaned.py:352-363 | never more than the extent, and equal to it with no handle |
| DockPanedModel.Interleave | etkdocking/dockpaned.py:150-171 | the loop of `_children` computes `Interleaved` |
| DockPanedModel.DockPaned.constructor | etkdocking/dockpaned.py:127-145 | empty, horizontal, handle size 4, weight `FALLBACK_WEIGHT`, drag context reset |
| DockPanedModel.DockPaned.Children | etkdocking/dockpaned.py:150-171 | items and handles in drawing order |
| DockPanedModel.DockPaned.InsertHandle | etkdocking/dockpaned.py:267-276 | a fresh handle with an empty area goes where `list.insert` puts it |
| DockPanedModel.DockPaned.RemoveHandle | etkdocking/dockpaned.py:278-293 | handle `k` goes, or handle `k - 1` when there is no handle `k` |
| DockPanedModel.DockPaned.InsertItem | etkdocking/dockpaned.py:173-237 | a child already in the paned or already with a parent is refused with nothing changed; otherwise the item goes in where `list.insert` puts it with its `InitialWeight` on the paned's effective size, a fresh handle goes in before it once there are two items and the handle counter moves past its id, and n items keep n - 1 handles; the result is the new item's index, or None (item and handle already in) for a weight outside [0, 1] |
| DockPanedModel.DockPaned.InsertNew | etkdocking/dockpaned.py:199-237 | for a child not yet present: the new item, its handle, the handle counter and the result as above |
| DockPanedModel.DockPaned.WeighNew | etkdocking/dockpaned.py:214-237 | the new item takes its initial weight and `item_num` finds it at its index |
| DockPanedModel.DockPaned.RemoveChild | etkdocking/dockpaned.py:239-265 | removes the item holding the child and the handle `HandleToRemove` names; an absent child is refused; n items keep n - 1 handles |
| DockPanedModel.DockPaned.RemoveItem | etkdocking/dockpaned.py:1046-1062 | removes the item at the index, or the last for None or a negative index; an index past the end is refused |
| DockPanedModel.DockPaned.ReorderItem | etkdocking/dockpaned.py:1121-1143 | the child's item moves to the target and the handles stay; an absent child is refused |
| DockPanedModel.DockPaned.HandleAtPos | etkdocking/dockpaned.py:304-319 | the first handle under the point |
| DockPanedModel.DockPaned.RedistributeWeight | etkdocking/dockpaned.py:406-457 | the items become `WeightsRedistributed` over the effective size of the allocation |
| DockPanedModel.DockPaned.RedistributeSize | etkdocking/dockpaned.py:365-404 | the items become `Resized` (with the corrected enlarge request) |
| DockPanedModel.DockPaned.Allocate | etkdocking/dockpaned.py:712-747 | items and handles get their laid-out rectangles |
| DockPanedModel.DockPaned.SizeAllocate | etkdocking/dockpaned.py:686-754 | with items: weights redistributed, then items and handles laid out, then the allocation accepted; with none: only the allocation changes |
| DockPanedModel.DockPaned.ButtonPress | etkdocking/dockpaned.py:787-814 | a button-1 press on the paned's window over a handle grabs it and keeps the pointer's offset on it; otherwise nothing changes |
| DockPanedModel.DockPaned.ButtonRelease | etkdocking/dockpaned.py:816-837 | releasing the grabbing button resets the context and the cursor; any other release changes nothing |
| DockPanedModel.DockPaned.DragHandle | etkdocking/dockpaned.py:877-891 | the items become `Dragged` (with the corrected enlarge request) |
| DockPanedModel.DockPaned.DragTo | etkdocking/dockpaned.py:863-891 | while dragging: no drag target fails with nothing changed; otherwise the items become `Dragged` by the handle's distance, and the cursor becomes the resize cursor when that succeeds |
| DockPanedModel.DockPaned.MotionNotify | etkdocking/dockpaned.py:839-897 | over a handle or while dragging the cursor becomes the resize cursor; while dragging the items are resized by the drag distance |
| DockTree.Put | lib/etk/docking/docklayout.py:384-389 | the widget at the path becomes the new one; the widget at the root keeps its own fields and its number of children |
| DockTree.Drop | lib/etk/docking/docklayout.py:418-421 | a container loses exactly child `k` and keeps its kind; a paned with one handle fewer than children keeps that, or ends with neither |
| DockTree.CutAncestors | lib/etk/docking/docklayout.py:418-421 | destroying a widget keeps every ancestor in place |
| DockTree.CutTwice | lib/etk/docking/docklayout.py:415-423 | destroying a widget and then one of its ancestors is destroying the ancestor |
| DockTree.PutSame | lib/etk/docking/docklayout.py:384-389 | putting back what is there changes nothing |
| DockTree.PutHolds | lib/etk/docking/docklayout.py:427-434 | a replacement that also holds `x` adds `x` to what the tree holds, and nothing else |
| DockTree.Chain | lib/etk/docking/docklayout.py:251-266 | the widgets from the frame down to the one at a path |
| DockTree.ChainUp | lib/etk/docking/docklayout.py:261-266 | a parent's chain is its child's without the last widget |
| DockTree.ParentHolds | lib/etk/docking/docklayout.py:261-266 | the parent of a path is the container holding it |
| DockLayoutModel.MagicBorderNearEdge | lib/etk/docking/docklayout.py:511-518 | a paned claims the border exactly when one of the four edge lines is nearer than `MAGIC_BORDER_SIZE` (10) |
| DockLayoutModel.MagicBorderBand | lib/etk/docking/docklayout.py:511-518 | every border point is claimed; a point 10 pixels clear of every edge inside the allocation is not |
| DockLayoutModel.FirstHit | lib/etk/docking/docklayout.py:467-469 | the first handle area under the point, borders included, None exactly when there is none |
| DockLayoutModel.FirstContained | lib/etk/docking/docklayout.py:382 | the first tab area strictly containing the point (`rect_contains`, border excluded), None exactly when there is none |
| DockLayoutModel.TabAreas | lib/etk/docking/docklayout.py:382 | the hit areas of the group's tabs, in tab order, one per tab as far as the areas go |
| DockLayoutModel.DropTabIndexChoice | lib/etk/docking/docklayout.py:382-389 | the first tab strictly containing the pointer, else the current tab, else None exactly when the group has no tab |
| DockLayoutModel.TabBorderFallsBack | lib/etk/docking/docklayout.py:382-389 | a pointer on the edge between two tabs hits neither, so the current tab's index is stored, where the inclusive handle test would pick the first tab |
| DockLayoutModel.ParentNode | lib/etk/docking/docklayout.py:261-266 | the parent of the widget at a path |
| DockLayoutModel.MotionClaim | lib/etk/docking/docklayout.py:196-266 | nobody takes a motion exactly when no group or paned is on the chain; otherwise the nearest one does, with its leave callback, unless it is a group whose parent paned claims its magic border, which then takes it with no callback |
| DockLayoutModel.NearestUp | lib/etk/docking/docklayout.py:261-266 | a frame's nearest group or paned is its parent's |
| DockLayoutModel.DragDrop | lib/etk/docking/docklayout.py:268-305 | any receiver handed out still fits the layout |
| DockLayoutModel.DropTarget | lib/etk/docking/docklayout.py:480-499 | the nearest group or paned on the chain takes the drop; it is refused exactly when there is none or it is a paned with no handle under the last motion |
| DockLayoutModel.GroupInsert | lib/etk/docking/docklayout.py:409 | the inserted tab becomes the group's current tab |
| DockLayoutModel.InsertEachTabs | lib/etk/docking/docklayout.py:408-409 | tabs inserted one by one at a fixed index stack up in reverse; with no position they are appended in order; the last becomes current |
| DockLayoutModel.GroupDropOrder | lib/etk/docking/docklayout.py:399-412 | the dropped tabs land as one block in their dragged order at the drop index, the first dragged current; a group without tabs appends them in reverse |
| DockLayoutModel.ReceiveIntoGroup | lib/etk/docking/docklayout.py:401-410 | the receive loop computes `GroupDropped` |
| DockLayoutModel.FillGroup | lib/etk/docking/docklayout.py:489-493 | a new group holding the dragged tabs in order, the last current |
| DockLayoutModel.PanedDropBetween | lib/etk/docking/docklayout.py:480-499 | dropped on handle `h`, a new group with the dragged tabs lands between children `h` and `h + 1`, with one new handle |
| DockLayoutModel.DragEndKeeps | lib/etk/docking/docklayout.py:415-423 | a drag end at a widget that is not emptied changes nothing |
| DockLayoutModel.DragEndCascade | lib/etk/docking/docklayout.py:502-509 | an emptied source is destroyed together with exactly the paneds above it that held nothing else |
| DockLayoutModel.DragEndStep | lib/etk/docking/docklayout.py:415-423 | destroying an emptied widget leaves its parent one child fewer, and the drag end goes on there |
| DockLayoutModel.FailedGroup | lib/etk/docking/docklayout.py:319-333 | the widget that handles a failed drag is a group on the chain |
| DockLayoutModel.FailedGroupNearest | lib/etk/docking/docklayout.py:427-434 | a failed drag is handled exactly when a group is on the chain, by the nearest one |
| DockLayoutModel.Refilled | lib/etk/docking/docklayout.py:430-432 | refilling keeps a group a group and keeps its dragged tab index |
| DockLayoutModel.LostFilters | lib/etk/docking/docklayout.py:431 | exactly the dragged tabs without a parent are put back |
| DockLayoutModel.RefilledHolds | lib/etk/docking/docklayout.py:430-432 | a tab has a parent afterwards exactly when it had one or was put back |
| DockLayoutModel.RefilledTabs | lib/etk/docking/docklayout.py:427-434 | as written, the lost tabs come back at `_dragged_tab_index` in reverse order; with no index they are appended in order |
| DockLayoutModel.RefillAsWritten | lib/etk/docking/docklayout.py:430-432 | the as-written loop computes `Refilled` in dragged order |
| DockLayoutModel.RefillReversesTwoTabs | lib/etk/docking/docklayout.py:430-432 | two distinct lost tabs `a, b` put back at index 0 of an empty group come back as `[b, a]` |
| DockLayoutModel.RefillKeepsOrder | lib/etk/docking/docklayout.py:427-434 | walked last first, the lost tabs come back as one block at `_dragged_tab_index` in their dragged order |
| DockLayoutModel.Refill | lib/etk/docking/docklayout.py:427-434 | the corrected loop computes `Refilled` in `RefillOrder` |
| DockLayoutModel.Unhighlighted | lib/etk/docking/docklayout.py:396-397 | a leave callback takes the highlight off its widget and changes nothing else |
| DockLayoutModel.Without | lib/etk/docking/docklayout.py:55-57 | the frames less `frame`; unchanged when it is absent |
| DockLayoutModel.AddThenRemove | lib/etk/docking/docklayout.py:50-57 | adding a new frame and removing it gives the layout back |
| DockLayoutModel.DockLayout.constructor | lib/etk/docking/docklayout.py:35-48 | no frames, no stored claim, no stored receiver |
| DockLayoutModel.DockLayout.Add | lib/etk/docking/docklayout.py:50-53 | a frame (the only kind the source accepts) joins the layout once |
| DockLayoutModel.DockLayout.Remove | lib/etk/docking/docklayout.py:55-57 | the frame leaves the layout; an absent frame is refused |
| DockLayoutModel.DockLayout.OnDragLeave | lib/etk/docking/docklayout.py:134-142 | the stored callback runs on the stored widget, and the claim is cleared |
| DockLayoutModel.DockLayout.OnDragMotion | lib/etk/docking/docklayout.py:120-131 | when a different widget (or nobody) takes the motion, the previous one is left and the new claim stored |
| DockLayoutModel.DockLayout.OnDragDataReceived | lib/etk/docking/docklayout.py:161-171 | the stored receiver runs with the dragged tabs and is forgotten |
| DockLayoutModel.DockLayout.OnDragDrop | lib/etk/docking/docklayout.py:144-159 | only a drag offering dock items is dispatched; the drop is accepted exactly when a widget takes it, and its receiver then runs |
| DockLayoutModel.DockLayout.OnDragEnd | lib/etk/docking/docklayout.py:173-174 | the layout becomes `DragEnd` at the source |
| DockLayoutModel.DockLayout.OnDragFailed | lib/etk/docking/docklayout.py:176-177 | handled exactly when a group on the chain puts its lost tabs back; it runs the corrected refill (see Findings), so they come back in their dragged order, where the source puts them back reversed |

## Left out

- GTK plumbing in `dockpaned.py` is not modelled. This covers realize, unrealize, map and unmap, drawing, the Gdk window, `queue_resize`, the `item-added`/`item-removed` signals, logging and GObject properties. None of it has logic to check. Cursors are an enum.
- `do_leave_notify_event` only resets the window cursor, and the window is not modelled.
- `do_get_preferred_width`/`height` and their `_for_*` variants ask the children for their sizes, which are not modelled. Item minimum sizes are given per item instead, and a `min_size` of None is 0.
- `append_item`, `prepend_item`, `insert_item`, `get_item_at_pos`, `do_add`, `do_remove` and `do_forall` are thin wrappers over `_insert_item`, `_remove_item` and GTK.
- `item_num` is the index of the child among the items, not a lookup through GTK's `get_children`.
- The children's `expand` setting lives outside these files. It is a given boolean per item.
- Whether a child passed to `_insert_item` already has a parent is a given boolean (`childHasParent`), since children are ids and not widgets.
- Whether the paned has an allocation yet is a parameter (`hasAllocation`). The first allocation is a placeholder rectangle. `self.get_allocation()` is the paned's `allocation` field, the allocation last accepted by `do_size_allocate`; during a size allocation the weights are therefore redistributed with the factor from the old allocation (`old(allocation)` in `SizeAllocate`).
- Float rounding is not modelled. Weights are exact reals. Python's `round` is modelled as round-half-even over reals, with no float error. The `int()` truncation of the drag distance is not needed, because coordinates are whole pixels.
- The division by zero in `_redistribute_weight` and `_redistribute_size` ends the operation with a failure flag rather than an exception. The items are left as far as the code got.
- DockGroup's source is not part of this model. Its `get_tab_at_pos` is taken as the first tab area that strictly contains the pointer, with `rect_contains`, which `etkdocking/util.py:31-33` names as the tab test. `visible_tabs` is taken as the tabs, and `insert_item`'s `visible_position` as a plain position. `insert_item` is taken to make the new tab current.
- DockPaned `insert_child` is taken to behave as `_insert_item`.
- Widgets are identified by their path from a frame, and `frames` is a sequence kept free of duplicates by `Add`, not a set. Widget identity and aliasing between frames are not modelled.
- `drag_get_data` is taken to deliver the data at once, within `on_widget_drag_drop`. The drag is within the application. `context.finish` and `context.targets` are reduced to the `offersItems` flag.
- Signal-handler wiring (`add_signal_handlers`, `remove_signal_handlers`, `on_widget_add`, `on_widget_remove`) and the `simplegeneric` registry are not modelled. The registry becomes a `match` on the widget kind.
- Highlight drawing is not modelled. The expose handlers and cairo calls are reduced to a `highlighted` flag on groups and paneds.
- The coordinate translation into the parent's window (`get_parent_info`) is reduced to a given offset `(px, py)` per widget. A motion passed up the chain is shifted by that offset, and the hit tests above (magic border, handle areas, tab areas) read the shifted point. The window hierarchy itself is not modelled.
- Drag events that start inside a dock item are not modelled, because items are ids and not widgets.
- The `print` calls in `dock_paned_magic_borders`, in the default `drag_motion` (`lib/etk/docking/docklayout.py:263`) and in `dock_paned_expose_highlight` (`lib/etk/docking/docklayout.py:444`) are output only and are not modelled.
- Resized: computes `_redistribute_size` with the corrected enlarge request (everything taken so far), not the per-round request of `etkdocking/dockpaned.py:396` as written; the as-written request is `EnlargeRequestAsWritten` under "## Findings".
- SizeLoop: proved to compute the corrected `Resized`, so it does not model the source's per-round overwrite of the enlarged item's request.
- ShrinkOne: its loop invariant carries the corrected enlarge request, not the source's per-round one.
- Dragged: resizes through the corrected `Resized`, so a drag that takes from several candidates gives the enlarged item everything taken (150/300 in the Findings example) where the source gives only the last round's share (130/300).
- DragHandle: the items become the corrected `Dragged`, not the source's per-round request.
- DragTo: the drag resizes with the corrected enlarge request.
- MotionNotify: a motion while dragging applies the corrected enlarge request.
- DockPaned.RedistributeSize: the items become the corrected `Resized`.
- DockLayout.OnDragFailed: runs the corrected refill, walking the lost tabs last first so they keep their dragged order; the source walks them first to last and puts them back reversed, which `RefillAsWritten` and `RefilledTabs` model.
- DragEnd: `return parent and drag_end(parent, context)` (`lib/etk/docking/docklayout.py:423` and `509`) is read as "if there is a parent, go on there", and so are `if parent:` at line 262 and `if drop_widget:` at line 153. Taken literally, a paned defines `__len__`, so a paned emptied by the destroy just before would be false unless the toolkit binding makes containers always true (the GObject-introspection binding's `Gtk.Container` does). The literal reading would make the paned handler at lines 502-509 unreachable from a child: it acts only on an empty paned, which is exactly the paned that reading never passes on to, and no drag starts from a paned. The model therefore cascades up through emptied paneds. Widget truthiness is not modelled.
- DropTabIndex: where a group has tabs but its current tab is None or not among its tabs, the source raises `ValueError` before the group is highlighted; the model returns None, and the drag motion still highlights the group and stores a claim.

## Findings

| source | as written | input that shows it | evidently intended | confidence | as-written member | corrected member |
|---|---|---|---|---|---|---|
| lib/etk/docking/docklayout.py:430-432 | `drag_failed` puts each lost tab back, first to last, at one fixed `_dragged_tab_index`, so each lands in front of the one before | a group at `_dragged_tab_index` 0 with no tabs left, two distinct dragged tabs `a, b` (say `[1, 2]`) that both lost their parent: they come back as `[b, a]` | the tabs return in their dragged order, as the drop handler does by walking them in reverse (line 408) | medium, not executed | DockLayoutModel.RefillReversesTwoTabs | DockLayoutModel.RefillKeepsOrder |
| etkdocking/dockpaned.py:396 | each round sets the enlarged item's request from its original allocation plus this round's adjustment only | a 50-pixel drag with two candidates sparing 20 and 50: 20 + 30 pixels are taken, but the enlarged item grows by 30 | the enlarged item grows by everything taken so far | high, not executed | PanedResize.RedistributeSizeAsWrittenLosesPixels | PanedResize.RedistributeEnlarges |
