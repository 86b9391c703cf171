/** One node of the legacy engine (`Component`): its activity, rectangle,
    scale, rotation and drag flags. There is no input switch, no scale
    alignment, no start or destroy bookkeeping and no timer, and every
    geometry setter stores its value and recomputes the matrices whether or
    not anything changed. */
module LegacyNode {
  import opened Common

  datatype Node = Node(
    isActive: bool,
    rect: Rect,
    scale: real,
    rotation: real,
    draggable: bool,
    dragging: bool)

  /** Only a draggable node can be in the middle of a drag. */
  predicate DragInv(n: Node)
  {
    n.dragging ==> n.draggable
  }

  /** A freshly constructed node, with the header's field initialisers. */
  function NewNode(): (n: Node)
    ensures n.isActive && n.rect == EmptyRect && n.scale == 1.0 && n.rotation == 0.0
    ensures !n.draggable && !n.dragging
    ensures DragInv(n)
  {
    Node(true, EmptyRect, 1.0, 0.0, false, false)
  }

  function GetPos(n: Node): Vec { Vec(n.rect.x, n.rect.y) }

  /** The rectangle's centre, as the host library computes it. */
  function GetCenterPos(n: Node): Vec
  {
    Vec(n.rect.x + n.rect.width / 2.0, n.rect.y + n.rect.height / 2.0)
  }

  // ---------------------------------------------------------------------
  // Geometry setters (no equality short-circuit, no hook)

  /** `setRect`: store the rectangle (the matrices are then recomputed,
      which has no effect on the state modelled here). */
  function SetRect(n: Node, r: Rect): (m: Node)
    ensures m.rect == r
    ensures m == n.(rect := m.rect)
  {
    n.(rect := r)
  }

  /** `setPos(x, y)`: move the top-left corner, keep the size. */
  function SetPos(n: Node, x: real, y: real): (m: Node)
    ensures GetPos(m) == Vec(x, y)
    ensures m.rect.width == n.rect.width && m.rect.height == n.rect.height
    ensures m == n.(rect := m.rect)
  {
    SetRect(n, Rect(x, y, n.rect.width, n.rect.height))
  }

  /** `setCenterPos(x, y)`: move so that the centre lands on `(x, y)`,
      keeping the size. */
  function SetCenterPos(n: Node, x: real, y: real): (m: Node)
    ensures GetCenterPos(m) == Vec(x, y)
    ensures m.rect.width == n.rect.width && m.rect.height == n.rect.height
    ensures m == n.(rect := m.rect)
  {
    SetRect(n, Rect(x - n.rect.width / 2.0, y - n.rect.height / 2.0, n.rect.width, n.rect.height))
  }

  /** `setWidth`: change the width only. */
  function SetWidth(n: Node, width: real): (m: Node)
    ensures m.rect.width == width
    ensures GetPos(m) == GetPos(n) && m.rect.height == n.rect.height
    ensures m == n.(rect := m.rect)
  {
    SetRect(n, Rect(n.rect.x, n.rect.y, width, n.rect.height))
  }

  /** `setHeight`: change the height only. */
  function SetHeight(n: Node, height: real): (m: Node)
    ensures m.rect.height == height
    ensures GetPos(m) == GetPos(n) && m.rect.width == n.rect.width
    ensures m == n.(rect := m.rect)
  {
    SetRect(n, Rect(n.rect.x, n.rect.y, n.rect.width, height))
  }

  /** `setScale`. */
  function SetScale(n: Node, s: real): (m: Node)
    ensures m.scale == s && m == n.(scale := s)
  {
    n.(scale := s)
  }

  /** `setRotation`. */
  function SetRotation(n: Node, r: real): (m: Node)
    ensures m.rotation == r && m == n.(rotation := r)
  {
    n.(rotation := r)
  }

  /** Moving back to the old position undoes a move, and moving by the
      centre is moving by the corner shifted by half the size. */
  lemma SetPosUndo(n: Node, x: real, y: real)
    ensures SetPos(SetPos(n, x, y), n.rect.x, n.rect.y) == n
    ensures SetCenterPos(n, x, y) == SetPos(n, x - n.rect.width / 2.0, y - n.rect.height / 2.0)
  {
  }

  /** The size setters commute with each other and with moving. */
  lemma SizeSettersCommute(n: Node, x: real, y: real, width: real, height: real)
    ensures SetHeight(SetWidth(n, width), height) == SetWidth(SetHeight(n, height), width)
    ensures SetPos(SetWidth(n, width), x, y) == SetWidth(SetPos(n, x, y), width)
  {
  }

  /** The geometry setters preserve the drag invariant. */
  lemma SettersKeepDragInv(n: Node, x: real, y: real)
    requires DragInv(n)
    ensures DragInv(SetPos(n, x, y)) && DragInv(SetCenterPos(n, x, y))
    ensures DragInv(SetWidth(n, x)) && DragInv(SetHeight(n, y))
    ensures DragInv(SetScale(n, x)) && DragInv(SetRotation(n, y))
  {
  }

  // ---------------------------------------------------------------------
  // Drag

  /** `setDraggable`: store the flag; switching dragging off ends a drag in
      progress. */
  function SetDraggable(n: Node, d: bool): (r: Node)
    ensures r.draggable == d
    ensures r.dragging <==> n.dragging && d
    ensures DragInv(n) ==> DragInv(r)
    ensures r == n.(draggable := d, dragging := r.dragging)
  {
    var n1 := n.(draggable := d);
    if !n1.draggable then n1.(dragging := false) else n1
  }

  /** How a node's own state answers an input event before its hook runs:
      a press on its global rectangle (`hit`) starts a drag if it is
      draggable, a drag moves a dragging node by the pointer's displacement
      `move` (measured in the node's own frame and added to its position),
      a release ends any drag; key events and
      mouse moves change nothing. */
  function Respond(n: Node, kind: InputKind, hit: bool, move: Vec): (r: Node)
    ensures kind == MousePressed ==> r == n.(dragging := n.dragging || (n.draggable && hit))
    ensures kind == MouseDragged && n.dragging ==> r == SetPos(n, n.rect.x + move.x, n.rect.y + move.y)
    ensures kind == MouseReleased ==> r == n.(dragging := false)
    ensures kind !in {MousePressed, MouseDragged, MouseReleased} || (kind == MouseDragged && !n.dragging) ==> r == n
    ensures kind != MouseDragged ==> r.rect == n.rect
    ensures r.isActive == n.isActive && r.draggable == n.draggable
    ensures DragInv(n) ==> DragInv(r)
  {
    match kind
    case MousePressed =>
      if n.draggable && hit then n.(dragging := true) else n
    case MouseDragged =>
      if n.dragging then SetPos(n, n.rect.x + move.x, n.rect.y + move.y) else n
    case MouseReleased =>
      if n.dragging then n.(dragging := false) else n
    case _ => n
  }

  /** A press, a drag and a release by the same node: the drag moves it by
      the displacement, and afterwards it is no longer dragging. */
  lemma PressDragRelease(n: Node, move: Vec)
    requires n.draggable
    ensures var p := Respond(n, MousePressed, true, move);
      var d := Respond(p, MouseDragged, false, move);
      var r := Respond(d, MouseReleased, false, move);
      && p.dragging
      && GetPos(d) == Vec(n.rect.x + move.x, n.rect.y + move.y)
      && !r.dragging && r == n.(rect := d.rect, dragging := false)
  {
  }

  /** A press that misses, or a node that is not draggable, never starts a
      drag, so a following drag event leaves the node where it was. */
  lemma MissedPressDoesNotDrag(n: Node, hit: bool, move: Vec)
    requires !n.dragging && !(n.draggable && hit)
    ensures var p := Respond(n, MousePressed, hit, move);
      !p.dragging && Respond(p, MouseDragged, false, move) == n
  {
  }
}
