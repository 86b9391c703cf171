# ofxComponent node engine in Dafny

This project models the node/tree engine of the ofxComponent scene graph, an
openFrameworks add-on. The engine exists in two generations, and both are
modelled:

- `ofxComponentBase`, the current engine. It has hierarchy edits, a mark-phase
  `destroy` that feeds the static `destroyedComponents` queue, per-node
  one-shot timers drained inside `update`, a lazy `start`, an own and an
  effective ("global") active flag with change notifications, input handlers
  gated by the active flag and `keyMouseEventEnabled`, drag handling, and
  geometry setters that return early when the value is unchanged.
- `Component`, the legacy engine. It has the same hierarchy edits with a
  different detach recursion, traversals gated by the active flag only, an
  ungated `dragEvent` broadcast, a `setActive` that sends no effective-active
  notification, a translation-only `getGlobalRect`, and drag by hit-testing
  the pointer against that rectangle.

The model is functional. A scene is a `Links` map (id to parent and ordered
children) plus a map from id to node state. The current engine's world also
carries the `destroyedComponents` queue. Every operation is a pure function
from world to world. Every hook the engine calls (`onStart`, `onUpdate`,
`postUpdate`, `onDraw`, `onActiveChanged`, the input hooks, timer callbacks,
and so on) is recorded as an event in a trace. A ghost rank map witnesses that
the parent links are acyclic.

Module layout:

- `Common`: identifiers, rectangles, hooks, events and sequence helpers. It
  also holds `insertChild`'s index rule, in both its intended and its
  as-written form.
- `Forest`: the tree invariant, ancestry, gated pre-order walks, and the
  reference `Detach`/`Attach`/`Reparent` edits.
- `Passes`: reference traces for a bracketed pass (hook, children, post-hook)
  and for a plain broadcast.
- `Placement`: the shape of `updateGlobalMatrix` over an abstract composition
  operator, and the translation-only global rectangle.
- `BaseNode`, `BaseHierarchy`, `BaseLifecycle`, `BaseTraversal`,
  `BaseActive`, `BaseGeometry`: the current engine.
- `LegacyNode`, `LegacyHierarchy`, `LegacyTraversal`: the legacy engine.

Host inputs become parameters. The clock is a `real` `now`. The pointer is
given per node as a local position (current engine) or as a screen position
(legacy press). Drag displacements are given per node as a vector: the pointer's
movement since the previous frame measured in the node's own frame, which
the source adds unchanged to the node's position. Floats are idealised as `real`.

## Model

| member | source | states |
|---|---|---|
| Common.InsertPosition | src/ofxComponentBase.cpp:490-501 | The intended insertion position: the end when index is at least the size, index itself when it is in range, the front when index is negative. |
| Common.InsertAt | src/ofxComponentBase.cpp:478-504 | The list grows by one, holds exactly the old children plus the new one, and an index at or past the end appends. |
| Common.InsertAtShape | src/ofxComponentBase.cpp:478-504 | The new child sits at the intended position, and the other children keep their relative order on either side of it. |
| Common.RemoveInserted | src/ofxComponentBase.cpp:506-515 | Erasing the first occurrence of a child that was absent and then inserted gives back the original list. |
| Common.InsertAtNoDup | src/ofxComponentBase.cpp:478-504 | Inserting a child not yet listed keeps the children list free of duplicates. |
| Common.RemoveFirstMultiset | src/ofxComponentBase.cpp:506-515 | `removeChild`'s erase of the first match removes exactly one occurrence of a listed child and nothing else. |
| Common.AsWrittenNegativeIndexAppends | src/ofxComponentBase.cpp:478-504 | In the code as written, a negative index is compared as an unsigned 64-bit value and therefore appends. |
| Common.AsWrittenInsertCounterexample | src/Component.cpp:330-356 | At index -1, the as-written insertion appends where the intended rule prepends. |
| Forest.AddNode | src/ofxComponentBase.h:220-221 | A new node has no parent and no children, and no other link changes. |
| Forest.AddNodeSound | src/Component.h:118-119 | Adding a parentless, childless node keeps the tree invariant. |
| Forest.GetChild | src/ofxComponentBase.cpp:538-543 | `getChild(i)` returns a child exactly when `0 <= i < size`, and then it is the child at position `i` of the list. |
| Forest.GetChildParent | src/Component.cpp:369-374 | In a consistent tree, the child `getChild` returns has the queried node as its parent. |
| Forest.WalkComplete | src/ofxComponentBase.cpp:23-54 | A gated pre-order walk visits exactly the nodes reachable from its root through gated nodes. |
| Forest.WalkNoDup | src/ofxComponentBase.cpp:56-78 | A gated walk visits no node twice. |
| Forest.DetachSound | src/ofxComponentBase.cpp:465-471 | The reference detach keeps the tree invariant, clears the parent, removes the node from every children list, and changes only the node and its old parent. |
| Forest.ReparentSound | src/ofxComponentBase.cpp:478-504 | Moving a node under a new parent that is not in its subtree keeps the tree valid. The node gets the new parent, keeps its children, and appears at the intended index. |
| Passes.BracketOpens | src/ofxComponentBase.cpp:23-54 | In a bracketed pass, the pre-hooks fire in the order of the gated pre-order walk. |
| Passes.BracketClosers | src/ofxComponentBase.cpp:56-78 | Every event of a bracketed pass belongs to a node of the gated walk. |
| Passes.BroadcastIsWalk | src/ofxComponentBase.cpp:15-21 | An ungated broadcast calls the hook once per node, in pre-order over the whole subtree. |
| Passes.NotifyIsWalk | src/ofxComponentBase.cpp:105-113 | A child-gated notification calls the hook on the gated walk in pre-order. |
| BaseNode.NewNode | src/ofxComponentBase.h:199-221 | A new node is active, accepts input, has an empty rect, scale 1, rotation 0, `Center` alignment and no timers. It still needs `start`, and it is neither draggable, destroyed nor constrained. |
| BaseNode.NewTimer | src/ofxComponentBase.cpp:582-585 | A new timer is not canceled and fires at creation time plus wait. |
| BaseNode.AddTimerFunction | src/ofxComponentBase.cpp:115-119 | Scheduling appends exactly one uncanceled timer due at `now + wait`, keeps the earlier timers, and changes nothing else. |
| BaseNode.ClearTimerFunctions | src/ofxComponentBase.cpp:121-125 | Every timer is canceled in place, with the same count, actions and due times. |
| BaseNode.CancelAllFacts | src/ofxComponentBase.cpp:121-125 | Canceling all timers is idempotent, distributes over concatenation, and leaves every timer canceled. |
| BaseNode.DestroyedIdempotent | src/ofxComponentBase.cpp:517-527 | Marking a node destroyed, and clearing its timers, are idempotent. |
| BaseNode.SetRect | src/ofxComponentBase.cpp:328-332 | Stores the rect and reports a matrix change exactly when the rect differs. |
| BaseNode.SetPos | src/ofxComponentBase.cpp:334-336 | Moves the corner and keeps the size and every other field. Reports a change exactly when the position differs. |
| BaseNode.SetCenterPos | src/ofxComponentBase.cpp:350-352 | Puts the centre at the point, keeps the size, and reports a change exactly when the centre moves. |
| BaseNode.SetWidth | src/ofxComponentBase.cpp:364-366 | Changes only the width, and reports a change exactly when the width differs. |
| BaseNode.SetHeight | src/ofxComponentBase.cpp:368-370 | Changes only the height, and reports a change exactly when the height differs. |
| BaseNode.SetScaleAlignment | src/ofxComponentBase.cpp:358-362 | Changes only the alignment, and reports a change exactly when it differs. |
| BaseNode.SetScale | src/ofxComponentBase.cpp:372-376 | Changes only the scale, and reports a change exactly when it differs. |
| BaseNode.SetRotation | src/ofxComponentBase.cpp:378-382 | Changes only the rotation, and reports a change exactly when it differs. |
| BaseNode.SettersIdempotent | src/ofxComponentBase.cpp:328-382 | Repeating any setter with the same value changes nothing, so its early return fires. |
| BaseNode.SetPosUndo | src/ofxComponentBase.cpp:334-336 | Moving back to the old corner restores the node. |
| BaseNode.SettersKeepDragInv | src/ofxComponentBase.cpp:334-370 | The geometry setters preserve "dragging implies draggable". |
| BaseNode.SetDraggable | src/ofxComponentBase.cpp:424-427 | Stores the flag. Dragging survives only if it was on and the node stays draggable. |
| BaseNode.ToggleKeyMouseEventEnabled | src/ofxComponentBase.cpp:236-238 | Flips the input switch and returns the new value. |
| BaseNode.ToggleTwice | src/ofxComponentBase.cpp:236-238 | Toggling twice restores the node. |
| BaseNode.InsideBox | src/ofxComponentBase.cpp:437-443 | For a non-negative size, `inside` holds exactly when the local point is strictly within the size box, and moving the node does not change it. |
| BaseHierarchy.RemoveChildSound | src/ofxComponentBase.cpp:506-515 | A non-child is a no-op. Otherwise the first occurrence is erased, the child becomes parentless and listed nowhere, nothing else changes, and the tree stays valid. |
| BaseHierarchy.RemoveChildIsDetach | src/ofxComponentBase.cpp:506-515 | On a consistent tree, `removeChild` equals the reference detach. |
| BaseHierarchy.RemoveParentSound | src/ofxComponentBase.cpp:465-471 | The node becomes parentless, is absent from every children list, and the old parent loses its first occurrence. The tree stays valid. |
| BaseHierarchy.RemoveParentIsDetach | src/ofxComponentBase.cpp:465-471 | `removeParent` equals the reference detach. |
| BaseHierarchy.SetParentSound | src/ofxComponentBase.cpp:449-463 | Same parent is a no-op. Otherwise the node leaves the old parent's list, is appended to the new parent's list and appears in no other, gets the new parent, and the result is a valid tree. |
| BaseHierarchy.SetParentIsReparent | src/ofxComponentBase.cpp:449-463 | The `setParent`→`addChild`→`insertChild`→`setParent` recursion terminates and equals detach-then-append. |
| BaseHierarchy.SetParentSame | src/ofxComponentBase.cpp:449-451 | Setting the current parent again changes nothing. |
| BaseHierarchy.InsertChildSound | src/ofxComponentBase.cpp:478-504 | A listed child is a no-op. Otherwise the child sits at the intended position, has the new parent, leaves its old parent's list, and the tree stays valid. |
| BaseHierarchy.InsertChildIsReparent | src/ofxComponentBase.cpp:478-504 | `insertChild` on an unlisted child equals the reference reparent at that index. |
| BaseHierarchy.InsertChildListed | src/ofxComponentBase.cpp:478-480 | `insertChild` and `addChild` on an already listed child change nothing. |
| BaseHierarchy.AddChildSound | src/ofxComponentBase.cpp:473-476 | `addChild` appends an unlisted child, sets its parent, and keeps the tree valid. A listed child is a no-op. |
| BaseHierarchy.InsertThenRemoveChild | src/ofxComponentBase.cpp:506-515 | Removing a parentless child right after inserting it restores the tree. |
| BaseHierarchy.InsertThenGetChild | src/ofxComponentBase.cpp:538-543 | After an insertion, `getChild` at the intended position returns the inserted child. |
| BaseLifecycle.StartOnce | src/ofxComponentBase.cpp:88-91 | `start` clears the node's own pending start and never sets another. The `update`/`draw` prologue of a pending node is `start`, and the prologue run again right after `start`, or after itself, does nothing, so no node is started twice. |
| BaseLifecycle.Destroy | src/ofxComponentBase.cpp:517-527 | Destroying keeps the world well formed, only adds marks, queue entries and canceled timers, and leaves the node destroyed. |
| BaseLifecycle.DestroyIsMarkWalk | src/ofxComponentBase.cpp:517-527 | Destroying a live node marks exactly its not-yet-destroyed subtree, in pre-order, stopping at already destroyed nodes. |
| BaseLifecycle.DestroyEffects | src/ofxComponentBase.cpp:517-527 | Every node the walk reaches becomes destroyed with all timers canceled, every other node is unchanged, and each newly destroyed node is queued exactly once, in pre-order. |
| BaseLifecycle.DestroyLiveSubtree | src/ofxComponentBase.cpp:517-527 | On a fully live subtree, exactly the descendants (the node included) are destroyed. |
| BaseLifecycle.DestroyIdempotent | src/ofxComponentBase.cpp:517-519 | A second `destroy` changes nothing. |
| BaseLifecycle.DestroyKeepsQueueInv | src/ofxComponentBase.cpp:517-527 | The queue stays duplicate-free and holds exactly the destroyed nodes. |
| BaseLifecycle.DestroyAfterRuns | src/ofxComponentBase.cpp:529-532 | Take `destroy(delay)` at `now` on a live node with no self-destroy already due, followed by the timer loop at `later`. The node, and the live part of its subtree, end destroyed exactly when `now + delay <= later`. The earlier callbacks run as they would have. Otherwise the node keeps its waiting timers with the new self-destroy queued behind them. Nothing outside the subtree changes. |
| BaseLifecycle.DrainFrame | src/ofxComponentBase.cpp:27-45 | Draining changes only destroyed flags and timer lists, and every event it emits is a timer callback of the draining node. |
| BaseLifecycle.DrainPlain | src/ofxComponentBase.cpp:27-45 | Without a live self-destroy coming due, exactly the uncanceled timers still in the future remain, in order, and the due ones run once each, in order. |
| BaseLifecycle.DrainDestroy | src/ofxComponentBase.cpp:27-45 | When a self-destroy comes due, the callbacks before it run, the node and its subtree are destroyed, and every later timer is canceled and discarded without running. |
| BaseLifecycle.DrainCanceled | src/ofxComponentBase.cpp:32-36 | Canceled timers are removed without running. |
| BaseLifecycle.DrainAfterClear | src/ofxComponentBase.cpp:121-125 | After `clearTimerFunctions`, a drain runs nothing and empties the list. |
| BaseLifecycle.AddedTimerRuns | src/ofxComponentBase.cpp:115-119 | A newly scheduled timer runs at a later drain exactly when `now + wait` has been reached, and waits otherwise. |
| BaseLifecycle.AppendFilters | src/ofxComponentBase.cpp:37-42 | The due and waiting selections split a timer list consistently under appending. |
| BaseTraversal.Setup | src/ofxComponentBase.cpp:15-21 | `setup` calls `onSetup` on every node of the subtree, in pre-order, ungated. |
| BaseTraversal.Exit | src/ofxComponentBase.cpp:80-86 | `exit` calls `onExit` on every node of the subtree, in pre-order, ungated. |
| BaseTraversal.StartIfPendingOnce | src/ofxComponentBase.cpp:24 | The lazy start in `update` fires `onStart` at most once per node. |
| BaseTraversal.UpdateStartsOnce | src/ofxComponentBase.cpp:23-54 | Across a whole update traversal, each node gets `onStart` at most once, and only if it was pending. |
| BaseTraversal.UpdateSettled | src/ofxComponentBase.cpp:23-54 | With no pending start and no timers, `update` is `onUpdate`, then the children in order, then `postUpdate`, over exactly the active, live nodes reachable through active, live nodes. Otherwise it is empty. |
| BaseTraversal.UpdateInactive | src/ofxComponentBase.cpp:23-47 | A node that is inactive, already destroyed, or has a self-destroy due emits only its own start and timer events. It has no `onUpdate`, does not recurse, and leaves the world as its timer loop left it. |
| BaseTraversal.UpdateShape | src/ofxComponentBase.cpp:23-54 | In every world: `onStart` comes first exactly when the node is pending, then only the node's own timer callbacks. Without a live self-destroy the node keeps exactly its waiting timers, and every due callback runs in queue order. The node then runs exactly when it is active, not destroyed and has no self-destroy due. It calls `onUpdate`, then for each child in order exactly the calls that child's own `update` makes from the world the timer loop left, then `postUpdate` last. Only strict descendants appear between the two hooks. Otherwise nothing follows the callbacks. The children never change the node. |
| BaseTraversal.UpdateSelfDestroy | src/ofxComponentBase.cpp:23-47 | When a live node's first due self-destroy is at position `k`, `update` runs the start and the callbacks due before `k` and nothing else. The node ends destroyed, keeping only the timers that were waiting before `k`, all canceled. |
| BaseTraversal.UpdateOutside | src/ofxComponentBase.cpp:23-54 | `update` changes no node outside the updated node's subtree, and calls hooks only inside it. |
| BaseTraversal.UpdateChildrenOutside | src/ofxComponentBase.cpp:49-52 | The loop over the children leaves the node itself and everything outside its subtree unchanged, and calls hooks only on strict descendants. |
| BaseTraversal.UpdateChildrenOrder | src/ofxComponentBase.cpp:49-52 | Once a call below child `j` appears, no call below an earlier child follows. The loop from position `i` calls no hook below the children before `i`. |
| BaseTraversal.UpdateChildrenIsChildTraces | src/ofxComponentBase.cpp:50-52 | The loop over the children makes exactly, in child order, the calls each child's `update` makes from the loop's starting world. Nothing an earlier sibling changed affects a later one. |
| BaseTraversal.UpdateCongruent | src/ofxComponentBase.cpp:23-54 | `update` reads only its own subtree. From two worlds that agree there, it makes the same calls and leaves two worlds that still agree there. |
| BaseLifecycle.DrainCongruent | src/ofxComponentBase.cpp:27-45 | The timer loop reads only the node's subtree. From two worlds that agree there, it records the same callbacks and leaves worlds that still agree there. |
| BaseLifecycle.DestroyCongruent | src/ofxComponentBase.cpp:517-527 | `destroy` reads only the destroyed node's subtree. Two worlds that agree there still agree there afterwards. |
| BaseLifecycle.DrainOutcome | src/ofxComponentBase.cpp:27-45 | The timer loop leaves the node destroyed exactly when it already was or a self-destroy was due. Otherwise it keeps exactly the waiting timers and runs every due callback in queue order. |
| BaseLifecycle.DrainOutside | src/ofxComponentBase.cpp:27-45 | The timer loop changes no node outside the node's subtree. |
| BaseLifecycle.DestroyOutside | src/ofxComponentBase.cpp:517-527 | `destroy` changes no node outside the destroyed node's subtree. |
| BaseTraversal.DrawStarts | src/ofxComponentBase.cpp:56-78 | `draw` changes only pending-start flags and starts each node at most once. It starts at least its root, and from a running root every node of the running walk. |
| BaseTraversal.DrawStartsExactly | src/ofxComponentBase.cpp:56-78 | `draw` starts exactly the nodes it enters. Each is started once if it was pending and not at all otherwise, and ends not pending. Every other node is unchanged. |
| BaseTraversal.VisitsComplete | src/ofxComponentBase.cpp:57-71 | `draw` enters its root. When the root is running, it also enters every node whose parent is reached from the root through running nodes, including inactive or destroyed children, since the start at line 57 comes before the gate at line 59. |
| BaseTraversal.VisitsWalk | src/ofxComponentBase.cpp:57-71 | The same nodes: the root, plus, when the root runs, every child of a node of the running walk. |
| BaseTraversal.DrawSettled | src/ofxComponentBase.cpp:56-78 | With no pending start, `draw` is `onDraw`, then the children, then `postDraw`, over the active, live walk. |
| BaseTraversal.Respond | src/ofxComponentBase.cpp:172-210 | A press starts a drag exactly when the node is draggable and the pointer is inside. A drag moves a dragging node by the displacement. A release ends the drag. Other kinds change nothing, and "dragging implies draggable" is preserved. |
| BaseTraversal.DispatchIsWalk | src/ofxComponentBase.cpp:142-230 | An input handler reaches exactly the nodes that are active with input enabled and reachable through such nodes, in pre-order. Each reached node responds and gets its hook. Every other node is untouched. |
| BaseTraversal.DisableSilences | src/ofxComponentBase.cpp:142-234 | After `setKeyMouseEventEnabled(false)` on a node, an input event dispatched from any ancestor changes no node of that node's subtree and calls no hook there. |
| BaseActive.GlobalActiveIsUpward | src/ofxComponentBase.cpp:127-140 | The effective active flag holds exactly when the node and all its ancestors are active. |
| BaseActive.AsWrittenGlobalActive | src/ofxComponentBase.cpp:127-140 | The code as written agrees with the intended flag except on the inactive branch, whose value is unspecified. |
| BaseActive.AsWrittenGlobalActiveCounterexample | src/ofxComponentBase.cpp:137-139 | A lone inactive node for which the as-written result can be true. |
| BaseActive.SetActive | src/ofxComponentBase.cpp:93-103 | Only the own flag changes. An unchanged value does nothing. A change first calls `onActiveChanged(v)`. |
| BaseActive.SetActiveNotifiesFlipped | src/ofxComponentBase.cpp:93-113 | A node gets `onGlobalActiveChanged` exactly when its effective flag flipped, and with its new value. |
| BaseActive.FlipBelow | src/ofxComponentBase.cpp:105-113 | Toggling one node flips the effective flag of exactly the nodes reachable below it through active children, and only when its own effective flag flips. |
| BaseActive.SetActiveNoRepeat | src/ofxComponentBase.cpp:93-113 | No hook call is repeated in one `setActive`. |
| BaseGeometry.GetGlobalRect | src/ofxComponentBase.cpp:248-261 | The global rect keeps the node's size, and at a root it is the node's own rect. |
| BaseGeometry.SetPosShiftsSubtree | src/ofxComponentBase.cpp:334-336 | Moving a node shifts the global rect of every node in its subtree by the same amount and leaves every other node's unchanged. |
| Placement.UpdateGlobalSound | src/ofxComponentBase.cpp:567-581 | After the recursion, every node of the subtree has `global = compose(local, parent global)`, or `global = local` at a root. Nodes outside the subtree are unchanged. |
| Placement.UpdateGlobalCoherent | src/ofxComponentBase.cpp:567-581 | If everything outside a subtree was coherent, refreshing the subtree makes the whole scene coherent. |
| Placement.LocalChangeRecoheres | src/ofxComponentBase.cpp:545-565 | After one local transform changes, refreshing that node's subtree restores coherence. |
| Placement.GlobalRectMove | src/Component.cpp:155-168 | Shifting one node's rect shifts the translation-only global rect of exactly its subtree. |
| Placement.GlobalRectResize | src/Component.cpp:155-168 | Resizing one node moves no global rect, and changes only that node's own size. |
| Placement.CoherentIsGlobalRect | src/Component.cpp:397-411 | With translation as the composition, coherent global positions are the positions of the translation-only global rect. |
| LegacyNode.NewNode | src/Component.h:108-119 | A new component is active, has an empty rect, scale 1 and rotation 0, and is neither draggable nor dragging. |
| LegacyNode.SetPos | src/Component.cpp:217-223 | Moves the corner and keeps the size. |
| LegacyNode.SetCenterPos | src/Component.cpp:225-231 | Puts the centre at the point and keeps the size. |
| LegacyNode.SetWidth | src/Component.cpp:233-235 | Changes the width and keeps the position and the height. |
| LegacyNode.SetHeight | src/Component.cpp:237-239 | Changes the height and keeps the position and the width. |
| LegacyNode.SetPosUndo | src/Component.cpp:217-231 | Moving back restores the node, and `setCenterPos(cx, cy)` is `setPos(cx - w/2, cy - h/2)`. |
| LegacyNode.SizeSettersCommute | src/Component.cpp:217-239 | The width and height setters commute with each other and with moving. |
| LegacyNode.SettersKeepDragInv | src/Component.cpp:212-249 | The setters preserve "dragging implies draggable". |
| LegacyNode.SetDraggable | src/Component.cpp:291-294 | Stores the flag, and `setDraggable(false)` ends any drag. |
| LegacyNode.Respond | src/Component.cpp:102-140 | A press on the global rect starts a drag for a draggable node. A drag moves a dragging node. A release ends it. Other kinds change nothing. |
| LegacyNode.PressDragRelease | src/Component.cpp:102-140 | A press, drag and release move a draggable node by the displacement and leave it not dragging. |
| LegacyNode.MissedPressDoesNotDrag | src/Component.cpp:102-128 | A missed press, or a node that is not draggable, starts no drag, so a drag leaves the node in place. |
| LegacyHierarchy.RemoveChildUnlisted | src/Component.cpp:358-367 | `removeChild` of a non-child changes nothing. |
| LegacyHierarchy.RemoveChildOnce | src/Component.cpp:358-367 | Erasing the child and then the nested `removeParent` call leaves one erase and a cleared parent. |
| LegacyHierarchy.RemoveChildSound | src/Component.cpp:358-367 | The child ends parentless and listed nowhere, the first occurrence is erased, and the tree stays valid. A non-child is a no-op. |
| LegacyHierarchy.RemoveChildIsDetach | src/Component.cpp:358-367 | The erase-then-removeParent recursion equals the reference detach. |
| LegacyHierarchy.RemoveParentSound | src/Component.cpp:318-323 | The node ends parentless, absent from every list, and the tree stays valid. |
| LegacyHierarchy.RemoveParentIsDetach | src/Component.cpp:318-323 | `removeParent` equals the reference detach. |
| LegacyHierarchy.SetParentSound | src/Component.cpp:304-316 | Same parent is a no-op. Otherwise the old parent loses the node, the new parent gains it exactly once at the end, and the tree stays valid. |
| LegacyHierarchy.SetParentIsReparent | src/Component.cpp:304-316 | The legacy `setParent` recursion equals detach-then-append. |
| LegacyHierarchy.InsertChildSound | src/Component.cpp:330-356 | A duplicate is a no-op. Otherwise the child sits at the intended position with the new parent, leaves its old parent, and the tree stays valid. |
| LegacyHierarchy.InsertChildIsReparent | src/Component.cpp:330-356 | The legacy `insertChild` on an unlisted child equals the reference reparent. |
| LegacyHierarchy.AddChildSound | src/Component.cpp:325-328 | `addChild` appends an unlisted child with the new parent and keeps the tree valid. |
| LegacyHierarchy.InsertThenRemoveChild | src/Component.cpp:358-367 | Removing a parentless child right after inserting it restores the tree. |
| LegacyHierarchy.InsertThenGetChild | src/Component.cpp:369-374 | `getChild` at the intended position returns the inserted child. |
| LegacyTraversal.Setup | src/Component.cpp:17-23 | `setup` calls `onSetup` on the whole subtree in pre-order, ungated. |
| LegacyTraversal.Exit | src/Component.cpp:58-64 | `exit` calls `onExit` on the whole subtree in pre-order, ungated. |
| LegacyTraversal.FileDrop | src/Component.cpp:142-149 | `dragEvent` reaches every node of the subtree in pre-order, whatever the active flags. |
| LegacyTraversal.Update | src/Component.cpp:25-34 | An inactive root emits nothing. Otherwise `onUpdate` runs over the active walk in pre-order, and every event belongs to an active node reachable through active nodes. |
| LegacyTraversal.Draw | src/Component.cpp:36-56 | The same gating and ordering for `onDraw`. |
| LegacyTraversal.SetActive | src/Component.cpp:66-70 | Only the own flag changes. `onActiveChanged` fires exactly once when the value changes and not at all otherwise. No effective-active notification is sent. |
| LegacyTraversal.SetActiveRoundTrip | src/Component.cpp:66-70 | Toggling and toggling back restores the world, with one hook call each time. |
| LegacyTraversal.DeactivateSilences | src/Component.cpp:25-34 | After a node is deactivated, an update from any ancestor emits nothing in its subtree. |
| LegacyTraversal.DispatchIsWalk | src/Component.cpp:72-140 | Key and mouse handlers reach exactly the active nodes reachable through active nodes, in pre-order. Each responds and gets its hook, and the rest are untouched. |
| LegacyTraversal.GetGlobalRect | src/Component.cpp:155-168 | The global rect keeps the size, and at a root it is the node's own rect. |
| LegacyTraversal.SetPosShiftsSubtree | src/Component.cpp:217-223 | Moving a node shifts the global rect of exactly its subtree by the same amount. |
| LegacyTraversal.SetRectShiftsSubtree | src/Component.cpp:212-215 | `setRect` shifts the global rect of exactly the node's subtree by the change of the corner, and gives the node's own global rect the new size. |
| LegacyTraversal.ScaleRotationKeepGeometry | src/Component.cpp:241-249 | `setScale` and `setRotation` change no global rect and no hit test, because `getGlobalRect` ignores both. |
| LegacyTraversal.PressKeepsHits | src/Component.cpp:102-114 | A press changes no rect, so the hit set computed at the start stays right throughout the traversal. |
| LegacyTraversal.PressStartsDrags | src/Component.cpp:102-114 | After a press, a node is dragging exactly when it already was, or when it is reached by the press, draggable, and its global rect contains the pointer. |
| LegacyTraversal.ReleaseEndsDrags | src/Component.cpp:130-140 | A release ends the drag of exactly the reached nodes. |
| LegacyTraversal.DragMovesDragging | src/Component.cpp:116-128 | A drag moves exactly the reached, dragging nodes by their displacement and leaves every other node unchanged. |

## Left out

- Floating-point matrix math: `ofMatrix4x4` translate, rotate, scale, inverse and `preMult`; `updateMatrix`; `getGlobalScale`; `getGlobalRotation`; the coordinate conversions. Floats are idealised as `real`. `updateGlobalMatrix` appears only as its recursion shape over an abstract composition operator.
- Rendering side effects (`ofPushMatrix`, `ofMultMatrix`, `ofPushStyle`, the constrain FBO): only the order of the draw hooks is kept.
- Host inputs: `ofGetElapsedTimef`, the mouse position and the window size are parameters.
- `timerFunctionsMutex` locking: this is concurrency machinery, and the drain is modelled as a sequential loop.
- Timer callbacks other than `destroy(delay)`: arbitrary user code, modelled as a trace event that does not change the scene.
- `src/ofxComponentManager.cpp` and `src/ComponentManager.cpp`: listener registration and forwarding, which is I/O plumbing.
- The example application is not part of this model.
- Members declared but not defined in the sources (`swapChild`, `setMovable`, `setConstrain`, `isMouseOver`, `removeDestroyedObjects` and the others): there is no behaviour to model.
- Destructors and `delete`: memory management.
- `setGlobalPos`, `getGlobalPos` and `getGlobalCenterPos` of the current engine: they go through the global matrix inverse, which is float matrix math.
- The legacy engine has no `mouseScrolled` handler, no input switch, no `destroy` and no timers, so these are absent from its model.
- LegacyHierarchy.SetParentSound: the legacy `setParent` does not refresh the global matrices. The matrices are not modelled, so this omission has no visible effect here.
- LegacyNode.SetRect: the legacy setters recompute the matrices unconditionally. That recomputation is not observable in the model, so the setters only store their values.
- BaseTraversal.Respond: `mouseDragged` takes the pointer's movement in the node's own frame (both positions go through the node's inverse global matrix) and adds it to the node's position, which lies in the parent's frame. The two frames differ once the node is scaled or rotated. The displacement is a parameter, not computed from matrices, so the model does not state this frame mismatch.
- LegacyTraversal.Dispatch: the legacy `mouseDragged` measures the displacement the same way (`src/Component.cpp` lines 120-121, 251-253 and 267-273). It is likewise a parameter.
- BaseActive.SetActive: the model computes the effective flag before and after with the intended `getGlobalActive`. As written, every real change reaches the unspecified branch of `getGlobalActive` (`src/ofxComponentBase.cpp` lines 137-139). Activating reads `beforeGlobal` (line 95) while the node is still inactive. Deactivating reads `afterGlobal` (line 98) once the node is inactive. So SetActiveNotifiesFlipped, FlipBelow and SetActiveNoRepeat describe the corrected program; the first row of "## Findings" gives the as-written half.
- BaseTraversal.Update: the model reads the clock once, as `now`, for the whole pass. In the source every node calls `ofGetElapsedTimef()` itself, so nodes later in the pass may see a later time.

## Findings

| source | as written | input that shows it | evidently intended | confidence | as-written member | corrected member |
|---|---|---|---|---|---|---|
| src/ofxComponentBase.cpp:127-140 | `getGlobalActive` evaluates `false;` on the inactive branch and falls off the end of a non-void function, so the result is undefined. `setActive` reaches that branch on every real change (lines 95 and 98) | a lone node with `isActive == false` | return `false` when the node is inactive | not executed | BaseActive.AsWrittenGlobalActiveCounterexample | BaseActive.GlobalActiveIsUpward |
| src/ofxComponentBase.cpp:478-504 | `insertChild` compares `children.size() <= index`, which converts a negative `int` index to a huge unsigned value, so the prepend branch for negative indices is unreachable and a negative index appends | `insertChild(c, -1)` on a node with one child | a negative index prepends, as the code's own `index < 0` branch says | not executed | Common.AsWrittenInsertCounterexample | Common.InsertPosition |
