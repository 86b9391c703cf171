/** Geometry of the current engine across the hierarchy: `getGlobalRect`,
    which adds the ancestors' positions only (ignoring scale and rotation),
    and what moving one node does to it. */
module BaseGeometry {
  import opened Common
  import opened Forest
  import opened Placement
  import opened BaseNode
  import opened BaseLifecycle

  function Rects(w: World): (m: map<Id, Rect>)
    ensures m.Keys == w.nodes.Keys
  {
    map y | y in w.nodes :: w.nodes[y].rect
  }

  /** `getGlobalRect()`: the node's rectangle moved by the positions of all
      its ancestors; the size is the node's own. */
  function GetGlobalRect(w: World, ghost rk: map<Id, nat>, x: Id): (r: Rect)
    requires WF(w) && Ranked(w.links, rk) && x in w.links
    ensures r.width == w.nodes[x].rect.width && r.height == w.nodes[x].rect.height
    ensures w.links[x].parent.None? ==> r == w.nodes[x].rect
  {
    GlobalRect(w.links, rk, Rects(w), x)
  }

  /** `setPos` on one node moves the global rectangle of every node of its
      subtree by the same amount and leaves every other one where it was. */
  lemma SetPosShiftsSubtree(w: World, rk: map<Id, nat>, m: Id, dx: real, dy: real, y: Id)
    requires WF(w) && Ranked(w.links, rk) && m in w.links && y in w.links
    ensures var n := w.nodes[m];
      var w1 := SetNode(w, m, SetPos(n, n.rect.x + dx, n.rect.y + dy).node);
      var before := GetGlobalRect(w, rk, y);
      var after := GetGlobalRect(w1, rk, y);
      if Anc(w.links, rk, y, m) then after == before.(x := before.x + dx, y := before.y + dy) else after == before
  {
    var n := w.nodes[m];
    var w1 := SetNode(w, m, SetPos(n, n.rect.x + dx, n.rect.y + dy).node);
    assert Rects(w1) == Moved(Rects(w), m, dx, dy);
    GlobalRectMove(w.links, rk, Rects(w), m, dx, dy, y);
  }
}
