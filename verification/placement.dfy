/** Where nodes sit in the window. Both generations compute a node's global
    rectangle by adding its position to its parent's global position
    (translation only), and keep a global matrix per node that
    `updateGlobalMatrix` recomputes over a subtree from the local matrices.
    The matrices are modelled over an abstract composition operator. */
module Placement {
  import opened Common
  import opened Forest

  // ---------------------------------------------------------------------
  // getGlobalRect

  /** `getGlobalRect()`: the node's own rectangle at a root; below a parent,
      its position shifted by the parent's global position, with its own
      width and height. Scale and rotation are not taken into account. */
  function GlobalRect(t: Links, ghost rk: map<Id, nat>, rects: map<Id, Rect>, x: Id): (r: Rect)
    requires Closed(t) && Ranked(t, rk) && x in t && t.Keys <= rects.Keys
    ensures r.width == rects[x].width && r.height == rects[x].height
    ensures t[x].parent.None? ==> r == rects[x]
    decreases Above(rk, rk[x])
  {
    match t[x].parent
    case None => rects[x]
    case Some(p) =>
      AboveShrinks(rk, x, p);
      var pr := GlobalRect(t, rk, rects, p);
      Rect(rects[x].x + pr.x, rects[x].y + pr.y, rects[x].width, rects[x].height)
  }

  /** `rects` with the position of `m` moved by `(dx, dy)`. */
  function Moved(rects: map<Id, Rect>, m: Id, dx: real, dy: real): map<Id, Rect>
    requires m in rects
  {
    rects[m := rects[m].(x := rects[m].x + dx, y := rects[m].y + dy)]
  }

  /** Moving one node moves the global rectangle of every node of its
      subtree by the same amount and leaves every other global rectangle
      where it was. */
  lemma {:induction false} GlobalRectMove(t: Links, rk: map<Id, nat>, rects: map<Id, Rect>, m: Id, dx: real, dy: real, y: Id)
    requires Closed(t) && Ranked(t, rk) && m in t && y in t && t.Keys <= rects.Keys
    ensures var before := GlobalRect(t, rk, rects, y);
      var after := GlobalRect(t, rk, Moved(rects, m, dx, dy), y);
      if Anc(t, rk, y, m) then after == before.(x := before.x + dx, y := before.y + dy) else after == before
    decreases Above(rk, rk[y])
  {
    if t[y].parent.Some? {
      var p := t[y].parent.value;
      AboveShrinks(rk, y, p);
      GlobalRectMove(t, rk, rects, m, dx, dy, p);
      if y == m && Anc(t, rk, p, m) {
        AncRank(t, rk, p, m);
      }
    }
  }

  /** `rects` with the size of `m` set to `width` by `height`. */
  function Resized(rects: map<Id, Rect>, m: Id, width: real, height: real): map<Id, Rect>
    requires m in rects
  {
    rects[m := rects[m].(width := width, height := height)]
  }

  /** Resizing one node moves no global rectangle: only that node's own
      global rectangle changes, and only in its size. */
  lemma {:induction false} GlobalRectResize(t: Links, rk: map<Id, nat>, rects: map<Id, Rect>, m: Id, width: real, height: real, y: Id)
    requires Closed(t) && Ranked(t, rk) && m in t && y in t && t.Keys <= rects.Keys
    ensures var before := GlobalRect(t, rk, rects, y);
      var after := GlobalRect(t, rk, Resized(rects, m, width, height), y);
      after == if y == m then before.(width := width, height := height) else before
    decreases Above(rk, rk[y])
  {
    if t[y].parent.Some? {
      var p := t[y].parent.value;
      AboveShrinks(rk, y, p);
      GlobalRectResize(t, rk, rects, m, width, height, p);
    }
  }

  // ---------------------------------------------------------------------
  // updateGlobalMatrix, over an abstract composition

  /** What a node's global value should be: its local value at a root,
      otherwise its local value composed with its parent's global value
      (`localMatrix * parent->getGlobalMatrix()`). */
  function Expected<M>(t: Links, local: map<Id, M>, compose: (M, M) -> M, g: map<Id, M>, y: Id): M
    requires Closed(t) && y in t && t.Keys <= local.Keys && t.Keys <= g.Keys
  {
    match t[y].parent
    case None => local[y]
    case Some(p) => compose(local[y], g[p])
  }

  /** Every node's global value agrees with its local value and its
      parent's global value. */
  ghost predicate Coherent<M>(t: Links, local: map<Id, M>, compose: (M, M) -> M, g: map<Id, M>)
    requires Closed(t) && t.Keys <= local.Keys && t.Keys <= g.Keys
  {
    forall y :: y in t ==> g[y] == Expected(t, local, compose, g, y)
  }

  /** `updateGlobalMatrix()` on `x`: recompute `x`'s global value from its
      parent's, then recurse into every child in order. No flag gates it. */
  function UpdateGlobal<M>(t: Links, ghost rk: map<Id, nat>, local: map<Id, M>, compose: (M, M) -> M, g: map<Id, M>, x: Id): (r: map<Id, M>)
    requires Valid(t, rk) && x in t && t.Keys <= local.Keys && t.Keys <= g.Keys
    ensures r.Keys == g.Keys
    decreases rk[x], 1
  {
    UpdateGlobalFrom(t, rk, local, compose, g[x := Expected(t, local, compose, g, x)], x, 0)
  }

  function UpdateGlobalFrom<M>(t: Links, ghost rk: map<Id, nat>, local: map<Id, M>, compose: (M, M) -> M, g: map<Id, M>, x: Id, i: nat): (r: map<Id, M>)
    requires Valid(t, rk) && x in t && t.Keys <= local.Keys && t.Keys <= g.Keys && i <= |t[x].children|
    ensures r.Keys == g.Keys
    decreases rk[x], 0, |t[x].children| - i
  {
    if i == |t[x].children| then g
    else
      var c := t[x].children[i];
      ChildRank(t, rk, x, c);
      UpdateGlobalFrom(t, rk, local, compose, UpdateGlobal(t, rk, local, compose, g, c), x, i + 1)
  }

  /** The subtree of `x` is the ungated walk from `x`. */
  lemma SubtreeIsWalk(t: Links, rk: map<Id, nat>, x: Id)
    requires Valid(t, rk) && x in t
    ensures forall y :: y in t ==> (y in Walk(t, rk, t.Keys, x) <==> Anc(t, rk, y, x))
  {
    WalkComplete(t, rk, t.Keys, x);
    forall y | y in t
      ensures Within(t, rk, t.Keys, y, x) <==> Anc(t, rk, y, x)
    {
      if Within(t, rk, t.Keys, y, x) {
        WithinAnc(t, rk, t.Keys, y, x);
      }
      if Anc(t, rk, y, x) {
        AncWithin(t, rk, t.Keys, y, x);
      }
    }
  }

  /** Inside a subtree, every node but its root has its parent inside too. */
  lemma ParentInSubtree(t: Links, rk: map<Id, nat>, x: Id, y: Id)
    requires Valid(t, rk) && x in t && y in t && y in Walk(t, rk, t.Keys, x) && y != x
    ensures t[y].parent.Some? && t[y].parent.value in Walk(t, rk, t.Keys, x)
  {
    WalkSound(t, rk, t.Keys, x);
    WalkComplete(t, rk, t.Keys, x);
  }

  /** A node and the walks below it share nothing. */
  lemma RootNotInChildren(t: Links, rk: map<Id, nat>, x: Id, i: nat)
    requires Valid(t, rk) && x in t && i <= |t[x].children|
    ensures x !in WalkFrom(t, rk, t.Keys, x, i)
  {
    WalkFromSound(t, rk, t.Keys, x, i);
    if x in WalkFrom(t, rk, t.Keys, x, i) {
      var j :| i <= j < |t[x].children| && Anc(t, rk, x, t[x].children[j]);
      ChildRank(t, rk, x, t[x].children[j]);
      AncRank(t, rk, x, t[x].children[j]);
    }
  }

  /** Updating from `x` sets every node of `x`'s subtree to its expected
      value and touches nothing outside it. */
  lemma {:induction false} UpdateGlobalSound<M>(t: Links, rk: map<Id, nat>, local: map<Id, M>, compose: (M, M) -> M, g: map<Id, M>, x: Id)
    requires Valid(t, rk) && x in t && t.Keys <= local.Keys && t.Keys <= g.Keys
    ensures var r := UpdateGlobal(t, rk, local, compose, g, x);
      && (forall y :: y in g && y !in Walk(t, rk, t.Keys, x) ==> r[y] == g[y])
      && (forall y :: y in Walk(t, rk, t.Keys, x) ==> y in t && r[y] == Expected(t, local, compose, r, y))
    decreases rk[x], 1
  {
    var g1 := g[x := Expected(t, local, compose, g, x)];
    var r := UpdateGlobalFrom(t, rk, local, compose, g1, x, 0);
    UpdateGlobalFromSound(t, rk, local, compose, g1, x, 0);
    RootNotInChildren(t, rk, x, 0);
    WalkSound(t, rk, t.Keys, x);
    if t[x].parent.Some? {
      var p := t[x].parent.value;
      assert p !in Walk(t, rk, t.Keys, x) by {
        if p in Walk(t, rk, t.Keys, x) {
          SubtreeIsWalk(t, rk, x);
          AncRank(t, rk, p, x);
        }
      }
    }
  }

  lemma {:induction false} UpdateGlobalFromSound<M>(t: Links, rk: map<Id, nat>, local: map<Id, M>, compose: (M, M) -> M, g: map<Id, M>, x: Id, i: nat)
    requires Valid(t, rk) && x in t && t.Keys <= local.Keys && t.Keys <= g.Keys && i <= |t[x].children|
    ensures var r := UpdateGlobalFrom(t, rk, local, compose, g, x, i);
      && (forall y :: y in g && y !in WalkFrom(t, rk, t.Keys, x, i) ==> r[y] == g[y])
      && (forall y :: y in WalkFrom(t, rk, t.Keys, x, i) ==> y in t && r[y] == Expected(t, local, compose, r, y))
    decreases rk[x], 0, |t[x].children| - i
  {
    WalkFromSound(t, rk, t.Keys, x, i);
    if i < |t[x].children| {
      var c := t[x].children[i];
      ChildRank(t, rk, x, c);
      var g1 := UpdateGlobal(t, rk, local, compose, g, c);
      var r := UpdateGlobalFrom(t, rk, local, compose, g1, x, i + 1);
      UpdateGlobalSound(t, rk, local, compose, g, c);
      UpdateGlobalFromSound(t, rk, local, compose, g1, x, i + 1);
      var sub := Walk(t, rk, t.Keys, c);
      var rest := WalkFrom(t, rk, t.Keys, x, i + 1);
      assert WalkFrom(t, rk, t.Keys, x, i) == sub + rest;
      WalkFromNoDup(t, rk, t.Keys, x, i);
      NoDupSplit(sub, rest);
      RootNotInChildren(t, rk, x, i + 1);
      SubtreeStays(t, rk, local, compose, g1, r, x, c, rest);
    }
  }

  /** The first child's subtree keeps its expected values while the later
      children are updated: none of its nodes, nor the parent above it,
      lies in their subtrees. */
  lemma SubtreeStays<M>(t: Links, rk: map<Id, nat>, local: map<Id, M>, compose: (M, M) -> M, g1: map<Id, M>, r: map<Id, M>, x: Id, c: Id, rest: seq<Id>)
    requires Valid(t, rk) && x in t && c in t && t[c].parent == Some(x)
    requires t.Keys <= local.Keys && t.Keys <= g1.Keys && r.Keys == g1.Keys
    requires forall z :: z in rest ==> z !in Walk(t, rk, t.Keys, c)
    requires x !in rest
    requires forall z :: z in g1 && z !in rest ==> r[z] == g1[z]
    requires forall z :: z in Walk(t, rk, t.Keys, c) ==> z in t && g1[z] == Expected(t, local, compose, g1, z)
    ensures forall y :: y in Walk(t, rk, t.Keys, c) ==> r[y] == Expected(t, local, compose, r, y)
  {
    forall y | y in Walk(t, rk, t.Keys, c)
      ensures r[y] == Expected(t, local, compose, r, y)
    {
      if y != c {
        ParentInSubtree(t, rk, c, y);
      }
    }
  }

  /** After `updateGlobalMatrix()` on `x`, starting from global values that
      were coherent everywhere outside `x`'s subtree (the situation after
      `x`'s local matrix or parent changed), every node's global value is
      coherent. */
  lemma UpdateGlobalCoherent<M>(t: Links, rk: map<Id, nat>, local: map<Id, M>, compose: (M, M) -> M, g: map<Id, M>, x: Id)
    requires Valid(t, rk) && x in t && t.Keys <= local.Keys && t.Keys <= g.Keys
    requires forall y :: y in t && !Anc(t, rk, y, x) ==> g[y] == Expected(t, local, compose, g, y)
    ensures Coherent(t, local, compose, UpdateGlobal(t, rk, local, compose, g, x))
  {
    var r := UpdateGlobal(t, rk, local, compose, g, x);
    UpdateGlobalSound(t, rk, local, compose, g, x);
    SubtreeIsWalk(t, rk, x);
    forall y | y in t && y !in Walk(t, rk, t.Keys, x)
      ensures r[y] == Expected(t, local, compose, r, y)
    {
      if t[y].parent.Some? {
        var p := t[y].parent.value;
        assert Anc(t, rk, y, x) || !Anc(t, rk, p, x);
      }
    }
  }

  /** `updateMatrix()`: after one node's local value changes, refreshing
      from that node makes a coherent assignment coherent again. */
  lemma LocalChangeRecoheres<M>(t: Links, rk: map<Id, nat>, local: map<Id, M>, compose: (M, M) -> M, g: map<Id, M>, x: Id, v: M)
    requires Valid(t, rk) && x in t && t.Keys <= local.Keys && t.Keys <= g.Keys
    requires Coherent(t, local, compose, g)
    ensures Coherent(t, local[x := v], compose, UpdateGlobal(t, rk, local[x := v], compose, g, x))
  {
    forall y | y in t && !Anc(t, rk, y, x)
      ensures g[y] == Expected(t, local[x := v], compose, g, y)
    {
      assert y != x;
    }
    UpdateGlobalCoherent(t, rk, local[x := v], compose, g, x);
  }

  // ---------------------------------------------------------------------
  // The translation-only case

  /** Composition of pure translations. */
  function Translate(a: Vec, b: Vec): Vec
  {
    Vec(a.x + b.x, a.y + b.y)
  }

  /** The local translations of the nodes: their positions. */
  function Positions(t: Links, rects: map<Id, Rect>): (m: map<Id, Vec>)
    requires t.Keys <= rects.Keys
    ensures m.Keys == t.Keys
  {
    map y | y in t :: Vec(rects[y].x, rects[y].y)
  }

  /** With translations for matrices, coherent global values are exactly the
      global rectangles' positions: `getGlobalRect` is the translation part
      of the global matrix. */
  lemma {:induction false} CoherentIsGlobalRect(t: Links, rk: map<Id, nat>, rects: map<Id, Rect>, g: map<Id, Vec>, y: Id)
    requires Closed(t) && Ranked(t, rk) && y in t && t.Keys <= rects.Keys && t.Keys <= g.Keys
    requires Coherent(t, Positions(t, rects), Translate, g)
    ensures var gr := GlobalRect(t, rk, rects, y); g[y] == Vec(gr.x, gr.y)
    decreases Above(rk, rk[y])
  {
    assert g[y] == Expected(t, Positions(t, rects), Translate, g, y);
    if t[y].parent.Some? {
      var p := t[y].parent.value;
      AboveShrinks(rk, y, p);
      CoherentIsGlobalRect(t, rk, rects, g, p);
    }
  }
}
