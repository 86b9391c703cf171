/** The legacy engine's recursive passes over a hierarchy of `Component`s.
    `setup`, `exit` and `dragEvent` reach every node; `update`, `draw` and
    the key and mouse handlers stop at an inactive node (there is no input
    switch and no global-active state); `setActive` calls the argument-less
    `onActiveChanged()` on the node alone. `getGlobalRect` adds the parents'
    positions only, ignoring scale and rotation, and a press starts a drag
    when that rectangle contains the pointer's screen position. */
module LegacyTraversal {
  import opened Common
  import opened Forest
  import opened Passes
  import opened Placement
  import opened LegacyNode

  datatype World = World(links: Links, nodes: map<Id, Node>)

  /** Links and node states describe the same nodes. */
  predicate WF(w: World)
  {
    Closed(w.links) && w.links.Keys == w.nodes.Keys
  }

  /** An operation's outcome: the new world and the hooks it called. */
  datatype Step = Step(w: World, trace: seq<Event>)

  function SetNode(w: World, x: Id, n: Node): World
  {
    w.(nodes := w.nodes[x := n])
  }

  /** The nodes whose own flag is on. */
  function Actives(w: World): set<Id>
  {
    set y | y in w.nodes && w.nodes[y].isActive
  }

  function Rects(w: World): (m: map<Id, Rect>)
    ensures m.Keys == w.nodes.Keys
  {
    map y | y in w.nodes :: w.nodes[y].rect
  }

  // ---------------------------------------------------------------------
  // setup, exit and dragEvent: every node

  /** `setup()`: `onSetup` on every node of the subtree, in pre-order,
      whatever its activity. */
  function Setup(w: World, ghost rk: map<Id, nat>, x: Id): (tr: seq<Event>)
    requires WF(w) && Valid(w.links, rk) && x in w.links
    ensures tr == HookOn(Walk(w.links, rk, w.links.Keys, x), OnSetup)
  {
    BroadcastIsWalk(w.links, rk, x, OnSetup);
    Broadcast(w.links, rk, x, OnSetup)
  }

  /** `exit()`: `onExit` on every node of the subtree, in pre-order. */
  function Exit(w: World, ghost rk: map<Id, nat>, x: Id): (tr: seq<Event>)
    requires WF(w) && Valid(w.links, rk) && x in w.links
    ensures tr == HookOn(Walk(w.links, rk, w.links.Keys, x), OnExit)
  {
    BroadcastIsWalk(w.links, rk, x, OnExit);
    Broadcast(w.links, rk, x, OnExit)
  }

  /** `dragEvent()` (a file drop): `onDragEvent` on every node of the
      subtree, in pre-order, inactive ones included, and no state changes. */
  function FileDrop(w: World, ghost rk: map<Id, nat>, x: Id): (tr: seq<Event>)
    requires WF(w) && Valid(w.links, rk) && x in w.links
    ensures tr == HookOn(Walk(w.links, rk, w.links.Keys, x), OnInput(DragEvent))
  {
    BroadcastIsWalk(w.links, rk, x, OnInput(DragEvent));
    Broadcast(w.links, rk, x, OnInput(DragEvent))
  }

  // ---------------------------------------------------------------------
  // update and draw: stopped by inactive nodes

  /** A bracketed pass from an active root reaches exactly the nodes joined
      to the root through active nodes, opening each in pre-order. */
  lemma ActivePass(t: Links, rk: map<Id, nat>, g: set<Id>, x: Id, pre: Hook, post: Hook)
    requires Valid(t, rk) && x in t && x in g && pre != post
    ensures OnlyHook(Bracket(t, rk, g, x, pre, post), pre) == HookOn(Walk(t, rk, g, x), pre)
    ensures forall e :: e in Bracket(t, rk, g, x, pre, post) ==> e.node in t && e.node in g && Within(t, rk, g, e.node, x)
  {
    BracketOpens(t, rk, g, x, pre, post);
    BracketClosers(t, rk, g, x, pre, post);
    WalkSound(t, rk, g, x);
  }

  /** `update()`: nothing from an inactive node; otherwise `onUpdate`, the
      children's updates in order, then `postUpdate`. */
  function Update(w: World, ghost rk: map<Id, nat>, x: Id): (tr: seq<Event>)
    requires WF(w) && Valid(w.links, rk) && x in w.links
    ensures x !in Actives(w) ==> tr == []
    ensures x in Actives(w) ==> OnlyHook(tr, OnUpdate) == HookOn(Walk(w.links, rk, Actives(w), x), OnUpdate)
    ensures forall e :: e in tr ==> e.node in w.links && e.node in Actives(w) && Within(w.links, rk, Actives(w), e.node, x)
  {
    if !w.nodes[x].isActive then []
    else
      ActivePass(w.links, rk, Actives(w), x, OnUpdate, PostUpdate);
      Bracket(w.links, rk, Actives(w), x, OnUpdate, PostUpdate)
  }

  /** `draw()`: nothing from an inactive node; otherwise `onDraw`, the
      children's draws in order, then `postDraw`. */
  function Draw(w: World, ghost rk: map<Id, nat>, x: Id): (tr: seq<Event>)
    requires WF(w) && Valid(w.links, rk) && x in w.links
    ensures x !in Actives(w) ==> tr == []
    ensures x in Actives(w) ==> OnlyHook(tr, OnDraw) == HookOn(Walk(w.links, rk, Actives(w), x), OnDraw)
    ensures forall e :: e in tr ==> e.node in w.links && e.node in Actives(w) && Within(w.links, rk, Actives(w), e.node, x)
  {
    if !w.nodes[x].isActive then []
    else
      ActivePass(w.links, rk, Actives(w), x, OnDraw, PostDraw);
      Bracket(w.links, rk, Actives(w), x, OnDraw, PostDraw)
  }

  // ---------------------------------------------------------------------
  // setActive

  /** `setActive(v)`: nothing when the flag already has that value;
      otherwise store it and call `onActiveChanged()` on this node only. */
  function SetActive(w: World, x: Id, v: bool): (s: Step)
    requires WF(w) && x in w.nodes
    ensures WF(s.w) && s.w.links == w.links
    ensures s.w.nodes == w.nodes[x := w.nodes[x].(isActive := v)]
    ensures s.trace != [] <==> w.nodes[x].isActive != v
    ensures forall e :: e in s.trace ==> e == Event(x, OnActiveToggled)
    ensures |s.trace| <= 1
  {
    if w.nodes[x].isActive == v then Step(w, [])
    else Step(SetNode(w, x, w.nodes[x].(isActive := v)), [Event(x, OnActiveToggled)])
  }

  /** Switching a node off and on again restores the world, with exactly
      one notification each way. */
  lemma SetActiveRoundTrip(w: World, x: Id, v: bool)
    requires WF(w) && x in w.nodes && w.nodes[x].isActive != v
    ensures var s1 := SetActive(w, x, v);
      var s2 := SetActive(s1.w, x, !v);
      s2.w == w && s1.trace == s2.trace == [Event(x, OnActiveToggled)]
  {
    var s1 := SetActive(w, x, v);
    assert s1.w.nodes[x := s1.w.nodes[x].(isActive := !v)] == w.nodes;
  }

  /** After switching off a node of `r`'s subtree, `update()` from `r`
      calls no hook anywhere in that node's subtree. */
  lemma DeactivateSilences(w: World, rk: map<Id, nat>, x: Id, r: Id)
    requires WF(w) && Valid(w.links, rk) && x in w.links && r in w.links && Anc(w.links, rk, x, r)
    ensures var w1 := SetActive(w, x, false).w;
      forall e :: e in Update(w1, rk, r) ==> e.node in w.links && !Anc(w.links, rk, e.node, x)
  {
    var w1 := SetActive(w, x, false).w;
    var tr := Update(w1, rk, r);
    assert x !in Actives(w1);
    if x != r {
      forall e | e in tr
        ensures e.node in w.links && !Anc(w.links, rk, e.node, x)
      {
        if Anc(w.links, rk, e.node, x) {
          WithinThrough(w.links, rk, Actives(w1), e.node, x, r);
        }
      }
    }
  }

  // ---------------------------------------------------------------------
  // Key and mouse events

  /** The key and mouse notifications the legacy engine handles; it has no
      scroll handler, and a file drop is not gated (`FileDrop`). */
  predicate Handled(kind: InputKind)
  {
    kind != MouseScrolled && kind != DragEvent
  }

  /** The shared recursion of `keyPressed`, `keyReleased`, `mouseMoved`,
      `mousePressed`, `mouseDragged` and `mouseReleased`: an inactive node
      ignores the event and hides it from its subtree; otherwise the node
      responds (`hits` holds the nodes whose global rectangle contains the
      pointer, `move` the pointer's displacement measured in each node's
      own frame), its hook runs, and each child gets the event in order. */
  function Dispatch(w: World, ghost rk: map<Id, nat>, x: Id, kind: InputKind, hits: set<Id>, move: Id -> Vec): (s: Step)
    requires WF(w) && Valid(w.links, rk) && x in w.nodes && Handled(kind)
    ensures WF(s.w) && s.w.links == w.links && s.w.nodes.Keys == w.nodes.Keys
    decreases rk[x], 1
  {
    var n := w.nodes[x];
    if !n.isActive then Step(w, [])
    else
      var s := DispatchChildren(SetNode(w, x, Respond(n, kind, x in hits, move(x))), rk, x, 0, kind, hits, move);
      Step(s.w, [Event(x, OnInput(kind))] + s.trace)
  }

  function DispatchChildren(w: World, ghost rk: map<Id, nat>, x: Id, i: nat, kind: InputKind, hits: set<Id>, move: Id -> Vec): (s: Step)
    requires WF(w) && Valid(w.links, rk) && x in w.nodes && i <= |w.links[x].children| && Handled(kind)
    ensures WF(s.w) && s.w.links == w.links && s.w.nodes.Keys == w.nodes.Keys
    decreases rk[x], 0, |w.links[x].children| - i
  {
    if i == |w.links[x].children| then Step(w, [])
    else
      var c := w.links[x].children[i];
      ChildRank(w.links, rk, x, c);
      var s1 := Dispatch(w, rk, c, kind, hits, move);
      var s2 := DispatchChildren(s1.w, rk, x, i + 1, kind, hits, move);
      Step(s2.w, s1.trace + s2.trace)
  }

  /** Reference for a dispatch: `r` is `w` after every node listed in `S`
      has responded once, each from its state in `w`; nothing else changes. */
  ghost predicate Answered(w: World, r: World, S: seq<Id>, kind: InputKind, hits: set<Id>, move: Id -> Vec)
  {
    && r.links == w.links && r.nodes.Keys == w.nodes.Keys
    && (forall y :: y in w.nodes ==>
          r.nodes[y] == if y in S then Respond(w.nodes[y], kind, y in hits, move(y)) else w.nodes[y])
  }

  /** `s` is the dispatch of an event to exactly the nodes of `S`, with
      their hooks called in the order of `S`. */
  ghost predicate DispatchOk(w: World, s: Step, S: seq<Id>, kind: InputKind, hits: set<Id>, move: Id -> Vec)
  {
    && (forall y :: y in S ==> y in w.nodes)
    && Answered(w, s.w, S, kind, hits, move)
    && s.trace == HookOn(S, OnInput(kind))
  }

  /** Responding never changes a node's activity. */
  lemma AnsweredActives(w: World, r: World, a: seq<Id>, kind: InputKind, hits: set<Id>, move: Id -> Vec)
    requires Answered(w, r, a, kind, hits, move)
    ensures Actives(r) == Actives(w)
  {
    forall y | y in w.nodes
      ensures r.nodes[y].isActive == w.nodes[y].isActive
    {
    }
  }

  /** Two dispatches in a row over disjoint node lists make one over both. */
  lemma DispatchCompose(w: World, s1: Step, s2: Step, a: seq<Id>, b: seq<Id>, kind: InputKind, hits: set<Id>, move: Id -> Vec)
    requires DispatchOk(w, s1, a, kind, hits, move) && DispatchOk(s1.w, s2, b, kind, hits, move)
    requires forall y :: y in b ==> y !in a
    ensures DispatchOk(w, Step(s2.w, s1.trace + s2.trace), a + b, kind, hits, move)
  {
    HookOnAppend(a, b, OnInput(kind));
  }

  lemma DispatchUnfold(w: World, rk: map<Id, nat>, x: Id, kind: InputKind, hits: set<Id>, move: Id -> Vec)
    requires WF(w) && Valid(w.links, rk) && x in w.nodes && Handled(kind) && w.nodes[x].isActive
    ensures var s := DispatchChildren(SetNode(w, x, Respond(w.nodes[x], kind, x in hits, move(x))), rk, x, 0, kind, hits, move);
      Dispatch(w, rk, x, kind, hits, move) == Step(s.w, [Event(x, OnInput(kind))] + s.trace)
  {
  }

  lemma DispatchChildrenUnfold(w: World, rk: map<Id, nat>, x: Id, i: nat, kind: InputKind, hits: set<Id>, move: Id -> Vec)
    requires WF(w) && Valid(w.links, rk) && x in w.nodes && i < |w.links[x].children| && Handled(kind)
    ensures var c := w.links[x].children[i];
      var s1 := Dispatch(w, rk, c, kind, hits, move);
      var s2 := DispatchChildren(s1.w, rk, x, i + 1, kind, hits, move);
      DispatchChildren(w, rk, x, i, kind, hits, move) == Step(s2.w, s1.trace + s2.trace)
  {
    ChildRank(w.links, rk, x, w.links[x].children[i]);
  }

  /** A key or mouse event reaches exactly the nodes joined to an active
      root through active nodes: each responds once, from its state before
      the event, the hooks run in pre-order, and nothing else changes. From
      an inactive root nothing happens. */
  lemma {:induction false} DispatchIsWalk(w: World, rk: map<Id, nat>, x: Id, kind: InputKind, hits: set<Id>, move: Id -> Vec)
    requires WF(w) && Valid(w.links, rk) && x in w.nodes && Handled(kind)
    ensures DispatchOk(w, Dispatch(w, rk, x, kind, hits, move),
      if x in Actives(w) then Walk(w.links, rk, Actives(w), x) else [], kind, hits, move)
    decreases rk[x], 1
  {
    if w.nodes[x].isActive {
      assert x in Actives(w);
      DispatchActive(w, rk, x, kind, hits, move);
    } else {
      assert x !in Actives(w);
      assert Dispatch(w, rk, x, kind, hits, move) == Step(w, []);
    }
  }

  /** A single node's response is the dispatch to just that node. */
  lemma DispatchOne(w: World, x: Id, kind: InputKind, hits: set<Id>, move: Id -> Vec)
    requires x in w.nodes
    ensures DispatchOk(w, Step(SetNode(w, x, Respond(w.nodes[x], kind, x in hits, move(x))), [Event(x, OnInput(kind))]), [x], kind, hits, move)
  {
    assert HookOn([x], OnInput(kind)) == [Event(x, OnInput(kind))];
  }

  /** The active case of `DispatchIsWalk`. */
  lemma {:induction false} DispatchActive(w: World, rk: map<Id, nat>, x: Id, kind: InputKind, hits: set<Id>, move: Id -> Vec)
    requires WF(w) && Valid(w.links, rk) && x in w.nodes && Handled(kind) && w.nodes[x].isActive
    ensures DispatchOk(w, Dispatch(w, rk, x, kind, hits, move), Walk(w.links, rk, Actives(w), x), kind, hits, move)
    decreases rk[x], 0, |w.links[x].children| + 1
  {
    var s0 := Step(SetNode(w, x, Respond(w.nodes[x], kind, x in hits, move(x))), [Event(x, OnInput(kind))]);
    var s := DispatchChildren(s0.w, rk, x, 0, kind, hits, move);
    var from := WalkFrom(w.links, rk, Actives(w), x, 0);
    assert DispatchOk(w, s0, [x], kind, hits, move) by {
      DispatchOne(w, x, kind, hits, move);
    }
    assert DispatchOk(s0.w, s, from, kind, hits, move) by {
      AnsweredActives(w, s0.w, [x], kind, hits, move);
      DispatchChildrenIsWalk(s0.w, rk, x, 0, kind, hits, move);
    }
    assert forall y :: y in from ==> y !in [x] by {
      RootNotBelow(w.links, rk, Actives(w), x);
    }
    assert Dispatch(w, rk, x, kind, hits, move) == Step(s.w, s0.trace + s.trace) by {
      DispatchUnfold(w, rk, x, kind, hits, move);
    }
    assert Walk(w.links, rk, Actives(w), x) == [x] + from;
    DispatchCompose(w, s0, s, [x], from, kind, hits, move);
  }

  lemma {:induction false} DispatchChildrenIsWalk(w: World, rk: map<Id, nat>, x: Id, i: nat, kind: InputKind, hits: set<Id>, move: Id -> Vec)
    requires WF(w) && Valid(w.links, rk) && x in w.nodes && i <= |w.links[x].children| && Handled(kind)
    ensures DispatchOk(w, DispatchChildren(w, rk, x, i, kind, hits, move), WalkFrom(w.links, rk, Actives(w), x, i), kind, hits, move)
    decreases rk[x], 0, |w.links[x].children| - i, 1
  {
    if i < |w.links[x].children| {
      var c := w.links[x].children[i];
      ChildRank(w.links, rk, x, c);
      DispatchChildHead(w, rk, x, i, kind, hits, move);
      DispatchChildrenIsWalk(Dispatch(w, rk, c, kind, hits, move).w, rk, x, i + 1, kind, hits, move);
      DispatchChildrenStep(w, rk, x, i, kind, hits, move);
    }
  }

  /** The first child of `DispatchChildrenIsWalk`'s step. */
  lemma {:induction false} DispatchChildHead(w: World, rk: map<Id, nat>, x: Id, i: nat, kind: InputKind, hits: set<Id>, move: Id -> Vec)
    requires WF(w) && Valid(w.links, rk) && x in w.nodes && i < |w.links[x].children| && Handled(kind)
    ensures var c := w.links[x].children[i];
      var s1 := Dispatch(w, rk, c, kind, hits, move);
      && DispatchOk(w, s1, if c in Actives(w) then Walk(w.links, rk, Actives(w), c) else [], kind, hits, move)
      && Actives(s1.w) == Actives(w)
    decreases rk[x], 0, |w.links[x].children| - i, 0
  {
    var c := w.links[x].children[i];
    ChildRank(w.links, rk, x, c);
    DispatchIsWalk(w, rk, c, kind, hits, move);
    AnsweredActives(w, Dispatch(w, rk, c, kind, hits, move).w, if c in Actives(w) then Walk(w.links, rk, Actives(w), c) else [], kind, hits, move);
  }

  /** One child of `DispatchChildrenIsWalk`: the child's dispatch followed
      by the rest of the loop is the dispatch to the rest of the walk. */
  lemma DispatchChildrenStep(w: World, rk: map<Id, nat>, x: Id, i: nat, kind: InputKind, hits: set<Id>, move: Id -> Vec)
    requires WF(w) && Valid(w.links, rk) && x in w.nodes && i < |w.links[x].children| && Handled(kind)
    requires var c := w.links[x].children[i];
      var s1 := Dispatch(w, rk, c, kind, hits, move);
      && DispatchOk(w, s1, if c in Actives(w) then Walk(w.links, rk, Actives(w), c) else [], kind, hits, move)
      && Actives(s1.w) == Actives(w)
      && DispatchOk(s1.w, DispatchChildren(s1.w, rk, x, i + 1, kind, hits, move),
           WalkFrom(s1.w.links, rk, Actives(s1.w), x, i + 1), kind, hits, move)
    ensures DispatchOk(w, DispatchChildren(w, rk, x, i, kind, hits, move), WalkFrom(w.links, rk, Actives(w), x, i), kind, hits, move)
  {
    var c := w.links[x].children[i];
    ChildRank(w.links, rk, x, c);
    var s1 := Dispatch(w, rk, c, kind, hits, move);
    var s2 := DispatchChildren(s1.w, rk, x, i + 1, kind, hits, move);
    var first := if c in Actives(w) then Walk(w.links, rk, Actives(w), c) else [];
    var rest := WalkFrom(w.links, rk, Actives(w), x, i + 1);
    assert forall y :: y in rest ==> y !in first by {
      WalkFromNoDup(w.links, rk, Actives(w), x, i);
      NoDupSplit(first, rest);
    }
    DispatchChildrenUnfold(w, rk, x, i, kind, hits, move);
    assert WalkFrom(w.links, rk, Actives(w), x, i) == first + rest;
    DispatchCompose(w, s1, s2, first, rest, kind, hits, move);
  }

  // ---------------------------------------------------------------------
  // Global rectangle and dragging

  /** `getGlobalRect()`: the node's rectangle moved by the positions of all
      its ancestors. */
  function GetGlobalRect(w: World, ghost rk: map<Id, nat>, x: Id): (r: Rect)
    requires WF(w) && Ranked(w.links, rk) && x in w.links
    ensures r.width == w.nodes[x].rect.width && r.height == w.nodes[x].rect.height
    ensures w.links[x].parent.None? ==> r == w.nodes[x].rect
  {
    GlobalRect(w.links, rk, Rects(w), x)
  }

  /** The nodes whose global rectangle contains the pointer's screen
      position `(px, py)`. */
  function Hits(w: World, ghost rk: map<Id, nat>, px: real, py: real): set<Id>
    requires WF(w) && Ranked(w.links, rk)
  {
    set y | y in w.links && Contains(GetGlobalRect(w, rk, y), px, py)
  }

  /** A press does not move anything. */
  function NoMove(y: Id): Vec { Vec(0.0, 0.0) }

  /** `mousePressed()` with the pointer at `(px, py)`. */
  function MousePress(w: World, ghost rk: map<Id, nat>, x: Id, px: real, py: real): (s: Step)
    requires WF(w) && Valid(w.links, rk) && x in w.nodes
  {
    Dispatch(w, rk, x, MousePressed, Hits(w, rk, px, py), NoMove)
  }

  /** Moving one node moves the global rectangle of every node of its
      subtree by the same amount and leaves every other one where it was. */
  lemma SetPosShiftsSubtree(w: World, rk: map<Id, nat>, m: Id, dx: real, dy: real, y: Id)
    requires WF(w) && Ranked(w.links, rk) && m in w.links && y in w.links
    ensures var n := w.nodes[m];
      var w1 := SetNode(w, m, SetPos(n, n.rect.x + dx, n.rect.y + dy));
      var before := GetGlobalRect(w, rk, y);
      var after := GetGlobalRect(w1, rk, y);
      if Anc(w.links, rk, y, m) then after == before.(x := before.x + dx, y := before.y + dy) else after == before
  {
    var n := w.nodes[m];
    var w1 := SetNode(w, m, SetPos(n, n.rect.x + dx, n.rect.y + dy));
    assert Rects(w1) == Moved(Rects(w), m, dx, dy);
    GlobalRectMove(w.links, rk, Rects(w), m, dx, dy, y);
  }

  /** `setRect` moves the global rectangle of every node of the subtree by
      the change of the top-left corner, gives the node itself its new
      size, and leaves every other global rectangle where it was. */
  lemma SetRectShiftsSubtree(w: World, rk: map<Id, nat>, m: Id, r: Rect, y: Id)
    requires WF(w) && Ranked(w.links, rk) && m in w.links && y in w.links
    ensures var n := w.nodes[m];
      var w1 := SetNode(w, m, SetRect(n, r));
      var dx := r.x - n.rect.x;
      var dy := r.y - n.rect.y;
      var before := GetGlobalRect(w, rk, y);
      var after := GetGlobalRect(w1, rk, y);
      if y == m then after == Rect(before.x + dx, before.y + dy, r.width, r.height)
      else if Anc(w.links, rk, y, m) then after == before.(x := before.x + dx, y := before.y + dy)
      else after == before
  {
    var n := w.nodes[m];
    var w1 := SetNode(w, m, SetRect(n, r));
    var dx := r.x - n.rect.x;
    var dy := r.y - n.rect.y;
    var resized := Resized(Rects(w), m, r.width, r.height);
    assert Rects(w1) == Moved(resized, m, dx, dy);
    GlobalRectResize(w.links, rk, Rects(w), m, r.width, r.height, y);
    GlobalRectMove(w.links, rk, resized, m, dx, dy, y);
  }

  /** The legacy global rectangle ignores scale and rotation: setting
      either on any node leaves every global rectangle, and so every hit
      test, as it was. */
  lemma ScaleRotationKeepGeometry(w: World, rk: map<Id, nat>, m: Id, scale: real, rotation: real)
    requires WF(w) && Ranked(w.links, rk) && m in w.links
    ensures var w1 := SetNode(w, m, SetScale(w.nodes[m], scale));
      var w2 := SetNode(w, m, SetRotation(w.nodes[m], rotation));
      && (forall y :: y in w.links ==> GetGlobalRect(w1, rk, y) == GetGlobalRect(w, rk, y))
      && (forall y :: y in w.links ==> GetGlobalRect(w2, rk, y) == GetGlobalRect(w, rk, y))
      && (forall px: real, py: real :: Hits(w1, rk, px, py) == Hits(w, rk, px, py))
      && (forall px: real, py: real :: Hits(w2, rk, px, py) == Hits(w, rk, px, py))
  {
    var w1 := SetNode(w, m, SetScale(w.nodes[m], scale));
    var w2 := SetNode(w, m, SetRotation(w.nodes[m], rotation));
    assert Rects(w1) == Rects(w);
    assert Rects(w2) == Rects(w);
  }

  /** A press changes no rectangle, at any point of its dispatch, so every
      node's hit test, made when the event reaches it, agrees with the one
      made before the event. */
  lemma PressKeepsHits(w: World, m: World, rk: map<Id, nat>, S: seq<Id>, hits: set<Id>, move: Id -> Vec, px: real, py: real)
    requires WF(w) && Ranked(w.links, rk) && Answered(w, m, S, MousePressed, hits, move)
    ensures WF(m) && Rects(m) == Rects(w)
    ensures Hits(m, rk, px, py) == Hits(w, rk, px, py)
  {
    forall y | y in w.nodes
      ensures m.nodes[y].rect == w.nodes[y].rect
    {
    }
    assert Rects(m) == Rects(w);
  }

  /** After a press from `x`, a node is dragging exactly when it already
      was, or the press reached it and it is draggable and under the
      pointer. */
  lemma PressStartsDrags(w: World, rk: map<Id, nat>, x: Id, px: real, py: real, y: Id)
    requires WF(w) && Valid(w.links, rk) && x in w.nodes && y in w.nodes
    ensures MousePress(w, rk, x, px, py).w.nodes[y].dragging <==>
      w.nodes[y].dragging ||
      (x in Actives(w) && Within(w.links, rk, Actives(w), y, x) && w.nodes[y].draggable && y in Hits(w, rk, px, py))
  {
    var hits := Hits(w, rk, px, py);
    DispatchIsWalk(w, rk, x, MousePressed, hits, NoMove);
    if x in Actives(w) {
      WalkComplete(w.links, rk, Actives(w), x);
    }
  }

  /** After a release from `x`, a node is dragging exactly when it was and
      the release did not reach it. */
  lemma ReleaseEndsDrags(w: World, rk: map<Id, nat>, x: Id, hits: set<Id>, move: Id -> Vec, y: Id)
    requires WF(w) && Valid(w.links, rk) && x in w.nodes && y in w.nodes
    ensures Dispatch(w, rk, x, MouseReleased, hits, move).w.nodes[y].dragging <==>
      w.nodes[y].dragging && !(x in Actives(w) && Within(w.links, rk, Actives(w), y, x))
  {
    DispatchIsWalk(w, rk, x, MouseReleased, hits, move);
    if x in Actives(w) {
      WalkComplete(w.links, rk, Actives(w), x);
    }
  }

  /** After a drag from `x`, a node has moved by its pointer displacement
      exactly when the drag reached it and it was dragging; every other node
      is where it was. */
  lemma DragMovesDragging(w: World, rk: map<Id, nat>, x: Id, hits: set<Id>, move: Id -> Vec, y: Id)
    requires WF(w) && Valid(w.links, rk) && x in w.nodes && y in w.nodes
    ensures var n := w.nodes[y];
      var r := Dispatch(w, rk, x, MouseDragged, hits, move).w.nodes[y];
      if x in Actives(w) && Within(w.links, rk, Actives(w), y, x) && n.dragging
      then GetPos(r) == Vec(n.rect.x + move(y).x, n.rect.y + move(y).y) && r == n.(rect := r.rect)
      else r == n
  {
    DispatchIsWalk(w, rk, x, MouseDragged, hits, move);
    if x in Actives(w) {
      WalkComplete(w.links, rk, Actives(w), x);
    }
  }
}
