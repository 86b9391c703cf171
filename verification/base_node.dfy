/** Per-node state of the current engine (`ofxComponentBase`): flags,
    geometry, the drag flag and the one-shot timer queue, with the field
    defaults of a new node and the node-local operations (geometry setters
    with their equality short-circuits, drag and input switches, the local
    hit test). */
module BaseNode {
  import opened Common

  /** Where scaling and rotation are anchored; the source spells the first
      value `Cornar`. */
  datatype Alignment = Cornar | Center

  /** What a scheduled function does. `DestroySelf` is the closure that
      `destroy(delaySec)` schedules; `Callback` stands for any other user
      function, whose effect is only the hook call it is recorded as. */
  datatype TimerAction = DestroySelf | Callback(tag: nat)

  /** A scheduled one-shot function. */
  datatype Timer = Timer(action: TimerAction, execTime: real, canceled: bool)

  /** `new Timer(func, wait)`: due `wait` seconds after `now`, not canceled. */
  function NewTimer(action: TimerAction, wait: real, now: real): (tm: Timer)
    ensures tm.action == action && !tm.canceled
    ensures tm.execTime - now == wait
  {
    Timer(action, wait + now, false)
  }

  /** Every timer of `ts` marked canceled, in place. */
  function CancelAll(ts: seq<Timer>): (r: seq<Timer>)
    ensures |r| == |ts|
    ensures forall i :: 0 <= i < |ts| ==> r[i] == ts[i].(canceled := true)
  {
    seq(|ts|, i requires 0 <= i < |ts| => ts[i].(canceled := true))
  }

  /** Canceling is idempotent and distributes over concatenation. */
  lemma CancelAllFacts(a: seq<Timer>, b: seq<Timer>)
    ensures CancelAll(CancelAll(a)) == CancelAll(a)
    ensures CancelAll(a + b) == CancelAll(a) + CancelAll(b)
    ensures forall tm :: tm in CancelAll(a) ==> tm.canceled
  {
  }

  /** The state one node carries besides its links. The header's `movable`
      field is the `draggable` flag its implementation reads. */
  datatype Node = Node(
    isActive: bool,
    keyMouseEventEnabled: bool,
    rect: Rect,
    scale: real,
    scaleAlignment: Alignment,
    rotation: real,
    constrain: bool,
    needStartExec: bool,
    draggable: bool,
    dragging: bool,
    destroyed: bool,
    timers: seq<Timer>)

  /** Only a draggable node can be in the middle of a drag. */
  predicate DragInv(n: Node)
  {
    n.dragging ==> n.draggable
  }

  /** A freshly constructed node, with the header's field initialisers. */
  function NewNode(): (n: Node)
    ensures n.isActive && n.keyMouseEventEnabled
    ensures n.rect == EmptyRect && n.scale == 1.0 && n.rotation == 0.0 && n.scaleAlignment == Center
    ensures n.needStartExec && !n.draggable && !n.destroyed && !n.constrain
    ensures n.timers == []
    ensures DragInv(n)
  {
    Node(true, true, EmptyRect, 1.0, Center, 0.0, false, true, false, false, false, [])
  }

  // ---------------------------------------------------------------------
  // Timers

  /** `addTimerFunction(func, wait)`: queue a new timer due `wait` seconds
      after `now`, behind those already queued. */
  function AddTimerFunction(n: Node, action: TimerAction, wait: real, now: real): (r: Node)
    ensures r == n.(timers := r.timers)
    ensures |r.timers| == |n.timers| + 1 && r.timers[..|n.timers|] == n.timers
    ensures var tm := r.timers[|n.timers|]; tm.action == action && !tm.canceled && tm.execTime == now + wait
  {
    n.(timers := n.timers + [NewTimer(action, wait, now)])
  }

  /** `clearTimerFunctions`: cancel every queued timer; they stay queued
      until the next update erases them. */
  function ClearTimerFunctions(n: Node): (r: Node)
    ensures r == n.(timers := r.timers)
    ensures |r.timers| == |n.timers|
    ensures forall i :: 0 <= i < |n.timers| ==>
      r.timers[i].canceled && r.timers[i].action == n.timers[i].action && r.timers[i].execTime == n.timers[i].execTime
  {
    n.(timers := CancelAll(n.timers))
  }

  /** The state `destroy()` leaves a node in: flagged and with every timer
      canceled. */
  function Destroyed(n: Node): (r: Node)
    ensures r.destroyed && r == ClearTimerFunctions(n).(destroyed := true)
  {
    ClearTimerFunctions(n.(destroyed := true))
  }

  /** Destroying twice is destroying once. */
  lemma DestroyedIdempotent(n: Node)
    ensures Destroyed(Destroyed(n)) == Destroyed(n)
    ensures ClearTimerFunctions(ClearTimerFunctions(n)) == ClearTimerFunctions(n)
  {
    CancelAllFacts(n.timers, []);
  }

  // ---------------------------------------------------------------------
  // Geometry setters

  /** The result of a geometry setter: the new state, and whether
      `updateMatrix` ran (which calls `onLocalMatrixChanged` and refreshes
      the global matrices of the subtree). */
  datatype Edit = Edit(node: Node, matrixChanged: bool)

  /** `setRect`: store the rectangle; recompute the matrix only when it
      differs from the current one. */
  function SetRect(n: Node, r: Rect): (e: Edit)
    ensures e.node == n.(rect := r)
    ensures e.matrixChanged <==> n.rect != r
  {
    if n.rect == r then Edit(n, false) else Edit(n.(rect := r), true)
  }

  function GetPos(n: Node): Vec { Vec(n.rect.x, n.rect.y) }

  /** The rectangle's centre, as the host library computes it. */
  function GetCenterPos(n: Node): Vec
  {
    Vec(n.rect.x + n.rect.width / 2.0, n.rect.y + n.rect.height / 2.0)
  }

  /** `setPos(x, y)`: move the top-left corner, keep the size. */
  function SetPos(n: Node, x: real, y: real): (e: Edit)
    ensures GetPos(e.node) == Vec(x, y)
    ensures e.node.rect.width == n.rect.width && e.node.rect.height == n.rect.height
    ensures e.node == n.(rect := e.node.rect)
    ensures e.matrixChanged <==> GetPos(n) != Vec(x, y)
  {
    SetRect(n, Rect(x, y, n.rect.width, n.rect.height))
  }

  /** `setCenterPos(x, y)`: move so that the centre lands on `(x, y)`,
      keeping the size. */
  function SetCenterPos(n: Node, x: real, y: real): (e: Edit)
    ensures GetCenterPos(e.node) == Vec(x, y)
    ensures e.node.rect.width == n.rect.width && e.node.rect.height == n.rect.height
    ensures e.node == n.(rect := e.node.rect)
    ensures e.matrixChanged <==> GetCenterPos(n) != Vec(x, y)
  {
    SetRect(n, Rect(x - n.rect.width / 2.0, y - n.rect.height / 2.0, n.rect.width, n.rect.height))
  }

  /** `setWidth`: change the width only. */
  function SetWidth(n: Node, width: real): (e: Edit)
    ensures e.node.rect == n.rect.(width := width)
    ensures e.node == n.(rect := e.node.rect)
    ensures e.matrixChanged <==> n.rect.width != width
  {
    SetRect(n, Rect(n.rect.x, n.rect.y, width, n.rect.height))
  }

  /** `setHeight`: change the height only. */
  function SetHeight(n: Node, height: real): (e: Edit)
    ensures e.node.rect == n.rect.(height := height)
    ensures e.node == n.(rect := e.node.rect)
    ensures e.matrixChanged <==> n.rect.height != height
  {
    SetRect(n, Rect(n.rect.x, n.rect.y, n.rect.width, height))
  }

  /** `setScaleAlignment`, short-circuited on equality. */
  function SetScaleAlignment(n: Node, a: Alignment): (e: Edit)
    ensures e.node == n.(scaleAlignment := a)
    ensures e.matrixChanged <==> n.scaleAlignment != a
  {
    if n.scaleAlignment == a then Edit(n, false) else Edit(n.(scaleAlignment := a), true)
  }

  /** `setScale`, short-circuited on equality. */
  function SetScale(n: Node, s: real): (e: Edit)
    ensures e.node == n.(scale := s)
    ensures e.matrixChanged <==> n.scale != s
  {
    if n.scale == s then Edit(n, false) else Edit(n.(scale := s), true)
  }

  /** `setRotation`, short-circuited on equality. */
  function SetRotation(n: Node, r: real): (e: Edit)
    ensures e.node == n.(rotation := r)
    ensures e.matrixChanged <==> n.rotation != r
  {
    if n.rotation == r then Edit(n, false) else Edit(n.(rotation := r), true)
  }

  /** Every setter is idempotent: repeating it leaves the node as it is and
      does not recompute the matrix. */
  lemma SettersIdempotent(n: Node, x: real, y: real, a: Alignment)
    ensures SetPos(SetPos(n, x, y).node, x, y) == Edit(SetPos(n, x, y).node, false)
    ensures SetCenterPos(SetCenterPos(n, x, y).node, x, y) == Edit(SetCenterPos(n, x, y).node, false)
    ensures SetWidth(SetWidth(n, x).node, x) == Edit(SetWidth(n, x).node, false)
    ensures SetHeight(SetHeight(n, y).node, y) == Edit(SetHeight(n, y).node, false)
    ensures SetScale(SetScale(n, x).node, x) == Edit(SetScale(n, x).node, false)
    ensures SetRotation(SetRotation(n, y).node, y) == Edit(SetRotation(n, y).node, false)
    ensures SetScaleAlignment(SetScaleAlignment(n, a).node, a) == Edit(SetScaleAlignment(n, a).node, false)
  {
  }

  /** Setting the position back to where it was undoes a move exactly. */
  lemma SetPosUndo(n: Node, x: real, y: real)
    ensures SetPos(SetPos(n, x, y).node, n.rect.x, n.rect.y).node == n
  {
  }

  /** The geometry setters preserve the drag invariant. */
  lemma SettersKeepDragInv(n: Node, x: real, y: real)
    requires DragInv(n)
    ensures DragInv(SetPos(n, x, y).node) && DragInv(SetCenterPos(n, x, y).node)
    ensures DragInv(SetWidth(n, x).node) && DragInv(SetHeight(n, y).node)
  {
  }

  // ---------------------------------------------------------------------
  // Drag, input switches, hit test

  /** `setDraggable`: store the flag; switching dragging off ends a drag in
      progress. */
  function SetDraggable(n: Node, d: bool): (r: Node)
    ensures r.draggable == d
    ensures r.dragging <==> n.dragging && d
    ensures DragInv(n) ==> DragInv(r)
    ensures r == n.(draggable := d, dragging := r.dragging)
  {
    var n1 := n.(draggable := d);
    if !n1.draggable then n1.(dragging := false) else n1
  }

  /** `setKeyMouseEventEnabled`. */
  function SetKeyMouseEventEnabled(n: Node, enabled: bool): (r: Node)
    ensures r == n.(keyMouseEventEnabled := enabled)
  {
    n.(keyMouseEventEnabled := enabled)
  }

  /** `toggleKeyMouseEventEnabled`: flip the flag and return its new value. */
  function ToggleKeyMouseEventEnabled(n: Node): (r: (Node, bool))
    ensures r.0 == n.(keyMouseEventEnabled := r.1)
    ensures r.1 != n.keyMouseEventEnabled
  {
    var n1 := n.(keyMouseEventEnabled := !n.keyMouseEventEnabled);
    (n1, n1.keyMouseEventEnabled)
  }

  /** Toggling twice restores the node. */
  lemma ToggleTwice(n: Node)
    ensures ToggleKeyMouseEventEnabled(ToggleKeyMouseEventEnabled(n).0).0 == n
  {
  }

  /** `inside(x, y)`: the point, given in the node's own frame, lies strictly
      within the node's size. */
  predicate Inside(n: Node, px: real, py: real)
  {
    Contains(Rect(0.0, 0.0, n.rect.width, n.rect.height), px, py)
  }

  /** With a non-negative size, `inside` is the open box from the origin to
      (width, height); it does not depend on the node's position. */
  lemma InsideBox(n: Node, px: real, py: real, x: real, y: real)
    requires n.rect.width >= 0.0 && n.rect.height >= 0.0
    ensures Inside(n, px, py) <==> 0.0 < px < n.rect.width && 0.0 < py < n.rect.height
    ensures Inside(SetPos(n, x, y).node, px, py) == Inside(n, px, py)
  {
  }
}
