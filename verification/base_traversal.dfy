/** The recursive passes of the current engine over a subtree: `setup`,
    `update`, `draw` and `exit`, and the key, mouse and file-drop handlers,
    each modelled as the hook calls it makes and the node state it changes. */
module BaseTraversal {
  import opened Common
  import opened Forest
  import opened Passes
  import opened BaseNode
  import opened BaseLifecycle

  /** The nodes whose update and draw hooks run: active and not destroyed. */
  function Running(w: World): set<Id>
  {
    set y | y in w.nodes && w.nodes[y].isActive && !w.nodes[y].destroyed
  }

  /** The nodes that take part in input handling: active with input
      enabled. */
  function Listening(w: World): set<Id>
  {
    set y | y in w.nodes && w.nodes[y].isActive && w.nodes[y].keyMouseEventEnabled
  }

  // ---------------------------------------------------------------------
  // setup and exit

  /** `setup()`: `onSetup` on every node of the subtree, parents first,
      whatever its flags. */
  function Setup(w: World, ghost rk: map<Id, nat>, x: Id): (tr: seq<Event>)
    requires WF(w) && Valid(w.links, rk) && x in w.nodes
    ensures (BroadcastIsWalk(w.links, rk, x, OnSetup); tr == HookOn(Walk(w.links, rk, w.links.Keys, x), OnSetup))
  {
    BroadcastIsWalk(w.links, rk, x, OnSetup);
    Broadcast(w.links, rk, x, OnSetup)
  }

  /** `exit()`: `onExit` on every node of the subtree, parents first,
      whatever its flags. */
  function Exit(w: World, ghost rk: map<Id, nat>, x: Id): (tr: seq<Event>)
    requires WF(w) && Valid(w.links, rk) && x in w.nodes
    ensures (BroadcastIsWalk(w.links, rk, x, OnExit); tr == HookOn(Walk(w.links, rk, w.links.Keys, x), OnExit))
  {
    BroadcastIsWalk(w.links, rk, x, OnExit);
    Broadcast(w.links, rk, x, OnExit)
  }

  // ---------------------------------------------------------------------
  // update and draw

  /** `update()`: start if pending; run the timer loop (even on an
      inactive or destroyed node); then, unless the node is inactive or
      destroyed, call `onUpdate`, update each child in order, and call
      `postUpdate`. The clock reads `now` throughout the pass. */
  function Update(w: World, ghost rk: map<Id, nat>, x: Id, now: real): (s: Step)
    requires WF(w) && Valid(w.links, rk) && x in w.nodes
    ensures WF(s.w) && s.w.links == w.links && s.w.nodes.Keys == w.nodes.Keys
    decreases rk[x], 1
  {
    var s0 := StartIfPending(w, x);
    var s1 := Drain(s0.w, x, now);
    var head := s0.trace + s1.trace;
    if !s1.w.nodes[x].isActive || s1.w.nodes[x].destroyed then Step(s1.w, head)
    else
      var s2 := UpdateChildren(s1.w, rk, x, 0, now);
      Step(s2.w, head + [Event(x, OnUpdate)] + s2.trace + [Event(x, PostUpdate)])
  }

  function UpdateChildren(w: World, ghost rk: map<Id, nat>, x: Id, i: nat, now: real): (s: Step)
    requires WF(w) && Valid(w.links, rk) && x in w.nodes && i <= |w.links[x].children|
    ensures WF(s.w) && s.w.links == w.links && s.w.nodes.Keys == w.nodes.Keys
    decreases rk[x], 0, |w.links[x].children| - i
  {
    if i == |w.links[x].children| then Step(w, [])
    else
      var c := w.links[x].children[i];
      ChildRank(w.links, rk, x, c);
      var s1 := Update(w, rk, c, now);
      var s2 := UpdateChildren(s1.w, rk, x, i + 1, now);
      Step(s2.w, s1.trace + s2.trace)
  }

  /** `draw()`: start if pending; then, unless the node is inactive or
      destroyed, call `onDraw`, draw each child in order, and call
      `postDraw`. Matrix and style pushes are not modelled. */
  function Draw(w: World, ghost rk: map<Id, nat>, x: Id): (s: Step)
    requires WF(w) && Valid(w.links, rk) && x in w.nodes
    ensures WF(s.w) && s.w.links == w.links && s.w.nodes.Keys == w.nodes.Keys
    decreases rk[x], 1
  {
    var s0 := StartIfPending(w, x);
    if !s0.w.nodes[x].isActive || s0.w.nodes[x].destroyed then s0
    else
      var s1 := DrawChildren(s0.w, rk, x, 0);
      Step(s1.w, s0.trace + [Event(x, OnDraw)] + s1.trace + [Event(x, PostDraw)])
  }

  function DrawChildren(w: World, ghost rk: map<Id, nat>, x: Id, i: nat): (s: Step)
    requires WF(w) && Valid(w.links, rk) && x in w.nodes && i <= |w.links[x].children|
    ensures WF(s.w) && s.w.links == w.links && s.w.nodes.Keys == w.nodes.Keys
    decreases rk[x], 0, |w.links[x].children| - i
  {
    if i == |w.links[x].children| then Step(w, [])
    else
      var c := w.links[x].children[i];
      ChildRank(w.links, rk, x, c);
      var s1 := Draw(w, rk, c);
      var s2 := DrawChildren(s1.w, rk, x, i + 1);
      Step(s2.w, s1.trace + s2.trace)
  }

  // ---------------------------------------------------------------------
  // start runs at most once

  /** Passing from `w` to `s` starts each node at most once and only while
      it was pending, and a node started on the way is no longer pending:
      no pass ever raises the pending-start flag. */
  ghost predicate StartsOnce(w: World, s: Step)
  {
    forall y :: y in w.nodes && y in s.w.nodes ==>
      Count(s.trace, Event(y, OnStart)) + (if s.w.nodes[y].needStartExec then 1 else 0)
        <= (if w.nodes[y].needStartExec then 1 else 0)
  }

  lemma CountAppend<T>(a: seq<T>, b: seq<T>, x: T)
    ensures Count(a + b, x) == Count(a, x) + Count(b, x)
  {
    CountIsMultiplicity(a + b, x);
    CountIsMultiplicity(a, x);
    CountIsMultiplicity(b, x);
  }

  lemma StartsOnceTrans(a: World, b: Step, c: Step)
    requires b.w.nodes.Keys == a.nodes.Keys && c.w.nodes.Keys == a.nodes.Keys
    requires StartsOnce(a, b) && StartsOnce(b.w, c)
    ensures StartsOnce(a, Step(c.w, b.trace + c.trace))
  {
    forall y | y in a.nodes
      ensures Count(b.trace + c.trace, Event(y, OnStart)) == Count(b.trace, Event(y, OnStart)) + Count(c.trace, Event(y, OnStart))
    {
      CountAppend(b.trace, c.trace, Event(y, OnStart));
    }
  }

  /** A single hook call other than `onStart` changes no pending flag. */
  lemma StartsOnceHook(w: World, x: Id, h: Hook)
    requires h != OnStart
    ensures StartsOnce(w, Step(w, [Event(x, h)]))
  {
    forall y | y in w.nodes ensures Count([Event(x, h)], Event(y, OnStart)) == 0 {
      assert [Event(x, h)][1..] == [];
    }
  }

  lemma StartIfPendingOnce(w: World, x: Id)
    requires WF(w) && x in w.nodes
    ensures StartsOnce(w, StartIfPending(w, x))
    ensures !StartIfPending(w, x).w.nodes[x].needStartExec
  {
    var s := StartIfPending(w, x);
    forall y | y in w.nodes
      ensures Count(s.trace, Event(y, OnStart)) == (if w.nodes[x].needStartExec && y == x then 1 else 0)
    {
      if w.nodes[x].needStartExec {
        assert s.trace[1..] == [];
      }
    }
  }

  /** The prologue in the terms of `DrawOk`: it starts its node if it was pending. */
  lemma StartIfPendingOk(w: World, x: Id)
    requires WF(w) && x in w.nodes
    ensures DrawOk(w, StartIfPending(w, x), [x])
    ensures StartIfPending(w, x).w.nodes[x] == w.nodes[x].(needStartExec := false)
  {
    var s := StartIfPending(w, x);
    assert StartsOnce(w, s) by {
      StartIfPendingOnce(w, x);
    }
    var n := w.nodes[x];
    if n.needStartExec {
      assert s.w == SetNode(w, x, n.(needStartExec := false));
      forall y | y in w.nodes ensures s.w.nodes[y] == w.nodes[y].(needStartExec := s.w.nodes[y].needStartExec) {
        if y != x {
          assert s.w.nodes[y] == w.nodes[y];
        }
      }
    } else {
      assert s.w == w;
      assert n.(needStartExec := false) == n;
    }
  }

  /** The timer loop calls no `onStart` and changes no pending flag. */
  lemma DrainStartsNothing(w: World, x: Id, now: real)
    requires WF(w) && x in w.nodes
    ensures StartsOnce(w, Drain(w, x, now))
  {
    var s := Drain(w, x, now);
    DrainFrame(w, x, 0, now);
    forall y | y in w.nodes ensures Count(s.trace, Event(y, OnStart)) == 0 {
      CountIsMultiplicity(s.trace, Event(y, OnStart));
      assert Event(y, OnStart) !in s.trace;
    }
  }

  /** `update()` starts every node of the subtree at most once. */
  lemma {:induction false} UpdateStartsOnce(w: World, rk: map<Id, nat>, x: Id, now: real)
    requires WF(w) && Valid(w.links, rk) && x in w.nodes
    ensures StartsOnce(w, Update(w, rk, x, now))
    decreases rk[x], 1
  {
    var s0 := StartIfPending(w, x);
    var s1 := Drain(s0.w, x, now);
    StartIfPendingOnce(w, x);
    DrainStartsNothing(s0.w, x, now);
    StartsOnceTrans(w, s0, s1);
    var head := Step(s1.w, s0.trace + s1.trace);
    if s1.w.nodes[x].isActive && !s1.w.nodes[x].destroyed {
      var s2 := UpdateChildren(s1.w, rk, x, 0, now);
      UpdateChildrenStartsOnce(s1.w, rk, x, 0, now);
      StartsOnceHook(s1.w, x, OnUpdate);
      StartsOnceTrans(w, head, Step(s1.w, [Event(x, OnUpdate)]));
      StartsOnceTrans(w, Step(s1.w, head.trace + [Event(x, OnUpdate)]), s2);
      StartsOnceHook(s2.w, x, PostUpdate);
      StartsOnceTrans(w, Step(s2.w, head.trace + [Event(x, OnUpdate)] + s2.trace), Step(s2.w, [Event(x, PostUpdate)]));
    }
  }

  lemma {:induction false} UpdateChildrenStartsOnce(w: World, rk: map<Id, nat>, x: Id, i: nat, now: real)
    requires WF(w) && Valid(w.links, rk) && x in w.nodes && i <= |w.links[x].children|
    ensures StartsOnce(w, UpdateChildren(w, rk, x, i, now))
    decreases rk[x], 0, |w.links[x].children| - i
  {
    if i < |w.links[x].children| {
      var c := w.links[x].children[i];
      ChildRank(w.links, rk, x, c);
      var s1 := Update(w, rk, c, now);
      UpdateStartsOnce(w, rk, c, now);
      var s2 := UpdateChildren(s1.w, rk, x, i + 1, now);
      UpdateChildrenStartsOnce(s1.w, rk, x, i + 1, now);
      assert UpdateChildren(w, rk, x, i, now) == Step(s2.w, s1.trace + s2.trace);
      StartsOnceTrans(w, s1, s2);
    }
  }

  /** `r` differs from `w` at most in pending-start flags. */
  predicate OnlyStarts(w: World, r: World)
  {
    && r.links == w.links && r.destroyedComponents == w.destroyedComponents && r.nodes.Keys == w.nodes.Keys
    && (forall y :: y in w.nodes ==> r.nodes[y] == w.nodes[y].(needStartExec := r.nodes[y].needStartExec))
  }

  lemma OnlyStartsTrans(a: World, b: World, c: World)
    requires OnlyStarts(a, b) && OnlyStarts(b, c)
    ensures OnlyStarts(a, c)
  {
  }

  /** Pending-start flags do not affect which nodes are running. */
  lemma OnlyStartsRunning(w: World, r: World)
    requires OnlyStarts(w, r)
    ensures Running(r) == Running(w)
  {
    forall y | y in w.nodes ensures r.nodes[y].isActive == w.nodes[y].isActive && r.nodes[y].destroyed == w.nodes[y].destroyed {
      assert r.nodes[y] == w.nodes[y].(needStartExec := r.nodes[y].needStartExec);
    }
  }

  /** The start bookkeeping of a `draw()` pass from `w` to `s`: only
      pending flags change, each node is started at most once, and every
      node listed in `started` ends up started. */
  ghost predicate DrawOk(w: World, s: Step, started: seq<Id>)
  {
    && OnlyStarts(w, s.w)
    && StartsOnce(w, s)
    && (forall y :: y in w.nodes && y in started ==> !s.w.nodes[y].needStartExec)
  }

  lemma DrawOkCompose(a: World, b: Step, c: Step, p: seq<Id>, q: seq<Id>)
    requires DrawOk(a, b, p) && DrawOk(b.w, c, q)
    ensures DrawOk(a, Step(c.w, b.trace + c.trace), p + q)
  {
    StartsOnceTrans(a, b, c);
  }

  lemma DrawOkHook(w: World, x: Id, h: Hook)
    requires h != OnStart
    ensures DrawOk(w, Step(w, [Event(x, h)]), [])
  {
    StartsOnceHook(w, x, h);
  }

  lemma DrawOkWeaken(w: World, s: Step, p: seq<Id>, q: seq<Id>)
    requires DrawOk(w, s, p) && forall y :: y in q ==> y in p
    ensures DrawOk(w, s, q)
  {
  }

  /** `draw()` changes nothing but pending-start flags and starts each
      node at most once. It always starts its root; from a running root it
      starts every node of the gated walk: each running node reached
      through running parents. */
  lemma {:induction false} DrawStarts(w: World, rk: map<Id, nat>, x: Id)
    requires WF(w) && Valid(w.links, rk) && x in w.nodes
    ensures DrawOk(w, Draw(w, rk, x), if x in Running(w) then Walk(w.links, rk, Running(w), x) else [x])
    decreases rk[x], 1
  {
    var s0 := StartIfPending(w, x);
    assert DrawOk(w, s0, [x]) && s0.w.nodes[x] == w.nodes[x].(needStartExec := false) by {
      StartIfPendingOk(w, x);
    }
    var n := w.nodes[x];
    if n.isActive && !n.destroyed {
      assert x in Running(w);
      DrawRunning(w, rk, x, s0);
    } else {
      assert x !in Running(w);
      assert Draw(w, rk, x) == s0;
    }
  }

  /** The running case of `DrawStarts`, after the prologue `s0`. */
  lemma {:induction false} DrawRunning(w: World, rk: map<Id, nat>, x: Id, s0: Step)
    requires WF(w) && Valid(w.links, rk) && x in w.nodes
    requires s0 == StartIfPending(w, x) && DrawOk(w, s0, [x])
    requires s0.w.nodes[x].isActive && !s0.w.nodes[x].destroyed
    ensures DrawOk(w, Draw(w, rk, x), Walk(w.links, rk, Running(w), x))
    decreases rk[x], 0, |w.links[x].children| + 1
  {
    var s1 := DrawChildren(s0.w, rk, x, 0);
    var from := WalkFrom(w.links, rk, Running(w), x, 0);
    assert DrawOk(s0.w, s1, from) by {
      OnlyStartsRunning(w, s0.w);
      DrawChildrenStarts(s0.w, rk, x, 0);
    }
    var mid := Step(s1.w, s0.trace + [Event(x, OnDraw)] + s1.trace);
    assert DrawOk(w, mid, [x] + from) by {
      DrawOkHook(s0.w, x, OnDraw);
      DrawOkCompose(w, s0, Step(s0.w, [Event(x, OnDraw)]), [x], []);
      assert [x] + [] == [x];
      DrawOkCompose(w, Step(s0.w, s0.trace + [Event(x, OnDraw)]), s1, [x], from);
    }
    assert Draw(w, rk, x) == Step(s1.w, mid.trace + [Event(x, PostDraw)]);
    assert DrawOk(w, Step(s1.w, mid.trace + [Event(x, PostDraw)]), [x] + from) by {
      DrawOkHook(s1.w, x, PostDraw);
      DrawOkCompose(w, mid, Step(s1.w, [Event(x, PostDraw)]), [x] + from, []);
      assert [x] + from + [] == [x] + from;
    }
    assert [x] + from == Walk(w.links, rk, Running(w), x);
  }

  lemma {:induction false} DrawChildrenStarts(w: World, rk: map<Id, nat>, x: Id, i: nat)
    requires WF(w) && Valid(w.links, rk) && x in w.nodes && i <= |w.links[x].children|
    ensures DrawOk(w, DrawChildren(w, rk, x, i), WalkFrom(w.links, rk, Running(w), x, i))
    decreases rk[x], 0, |w.links[x].children| - i
  {
    if i < |w.links[x].children| {
      var c := w.links[x].children[i];
      ChildRank(w.links, rk, x, c);
      var s1 := Draw(w, rk, c);
      var s2 := DrawChildren(s1.w, rk, x, i + 1);
      var rest := WalkFrom(w.links, rk, Running(w), x, i + 1);
      var first := if c in Running(w) then Walk(w.links, rk, Running(w), c) else [];
      assert DrawOk(w, s1, first) by {
        DrawStarts(w, rk, c);
        DrawOkWeaken(w, s1, if c in Running(w) then Walk(w.links, rk, Running(w), c) else [c], first);
      }
      assert DrawOk(s1.w, s2, rest) by {
        DrawChildrenStarts(s1.w, rk, x, i + 1);
        OnlyStartsRunning(w, s1.w);
      }
      assert DrawChildren(w, rk, x, i) == Step(s2.w, s1.trace + s2.trace);
      DrawOkCompose(w, s1, s2, first, rest);
    }
  }

  // ---------------------------------------------------------------------
  // the nodes draw enters

  /** The nodes `draw()` from `x` enters, in call order: `x` itself, and
      when `x` is in `gate`, the nodes each child's `draw()` enters, child
      after child. A child outside `gate` is still entered, since its
      start prologue runs before its own gate, but not descended into. */
  ghost function Visits(t: Links, rk: map<Id, nat>, gate: set<Id>, x: Id): seq<Id>
    requires Valid(t, rk) && x in t
    decreases rk[x], 1
  {
    [x] + (if x in gate then VisitsFrom(t, rk, gate, x, 0) else [])
  }

  ghost function VisitsFrom(t: Links, rk: map<Id, nat>, gate: set<Id>, x: Id, i: nat): seq<Id>
    requires Valid(t, rk) && x in t && i <= |t[x].children|
    decreases rk[x], 0, |t[x].children| - i
  {
    if i == |t[x].children| then []
    else
      ChildRank(t, rk, x, t[x].children[i]);
      Visits(t, rk, gate, t[x].children[i]) + VisitsFrom(t, rk, gate, x, i + 1)
  }

  lemma {:induction false} VisitsSound(t: Links, rk: map<Id, nat>, gate: set<Id>, x: Id)
    requires Valid(t, rk) && x in t
    ensures forall y :: y in Visits(t, rk, gate, x) ==>
      && y in t && Anc(t, rk, y, x)
      && (y == x || (x in gate && t[y].parent.Some? && Within(t, rk, gate, t[y].parent.value, x)))
    decreases rk[x], 1
  {
    assert Anc(t, rk, x, x);
    if x in gate {
      VisitsFromSound(t, rk, gate, x, 0);
    }
  }

  lemma {:induction false} VisitsFromSound(t: Links, rk: map<Id, nat>, gate: set<Id>, x: Id, i: nat)
    requires Valid(t, rk) && x in t && i <= |t[x].children|
    ensures forall y :: y in VisitsFrom(t, rk, gate, x, i) ==>
      && y in t && y != x && Anc(t, rk, y, x)
      && t[y].parent.Some? && Within(t, rk, gate, t[y].parent.value, x)
      && forall m :: 0 <= m < i ==> !Anc(t, rk, y, t[x].children[m])
    decreases rk[x], 0, |t[x].children| - i
  {
    if i < |t[x].children| {
      var c := t[x].children[i];
      ChildRank(t, rk, x, c);
      VisitsSound(t, rk, gate, c);
      forall y | y in Visits(t, rk, gate, c)
        ensures && y != x && Anc(t, rk, y, x)
                && t[y].parent.Some? && Within(t, rk, gate, t[y].parent.value, x)
                && forall m :: 0 <= m < i ==> !Anc(t, rk, y, t[x].children[m])
      {
        AncStep(t, rk, y, c, x);
        if y == x {
          AncRank(t, rk, x, c);
        }
        if y != c {
          WithinStep(t, rk, gate, t[y].parent.value, c, x);
        }
        BelowOneChild(t, rk, x, i, y);
      }
      VisitsFromSound(t, rk, gate, x, i + 1);
    }
  }

  lemma {:induction false} VisitsFromContains(t: Links, rk: map<Id, nat>, gate: set<Id>, x: Id, i: nat, j: nat)
    requires Valid(t, rk) && x in t && i <= j < |t[x].children|
    ensures (ChildRank(t, rk, x, t[x].children[j]);
             forall y :: y in Visits(t, rk, gate, t[x].children[j]) ==> y in VisitsFrom(t, rk, gate, x, i))
    decreases |t[x].children| - i
  {
    ChildRank(t, rk, x, t[x].children[j]);
    if i < j {
      VisitsFromContains(t, rk, gate, x, i + 1, j);
    }
  }

  /** `draw()` from `x` enters exactly `x` and, when `x` is in `gate`, every
      node whose parent lies on a gated path down from `x`: the gated walk
      from `x` together with the children of the walk's gated nodes. */
  lemma {:induction false} VisitsComplete(t: Links, rk: map<Id, nat>, gate: set<Id>, x: Id)
    requires Valid(t, rk) && x in t
    ensures forall y :: y in t ==> (y in Visits(t, rk, gate, x) <==>
      y == x || (x in gate && t[y].parent.Some? && Within(t, rk, gate, t[y].parent.value, x)))
    decreases rk[x]
  {
    VisitsSound(t, rk, gate, x);
    forall y | y in t && y != x && x in gate && t[y].parent.Some? && Within(t, rk, gate, t[y].parent.value, x)
      ensures y in Visits(t, rk, gate, x)
    {
      var p := t[y].parent.value;
      if p == x {
        var j := IndexOf(t[x].children, y);
        ChildRank(t, rk, x, y);
        assert y in Visits(t, rk, gate, t[x].children[j]);
        VisitsFromContains(t, rk, gate, x, 0, j);
      } else {
        WithinChild(t, rk, gate, p, x);
        var j :| 0 <= j < |t[x].children| && t[x].children[j] in gate && Within(t, rk, gate, p, t[x].children[j]);
        var c := t[x].children[j];
        ChildRank(t, rk, x, c);
        VisitsComplete(t, rk, gate, c);
        VisitsFromContains(t, rk, gate, x, 0, j);
      }
    }
  }

  /** The same set in terms of the gated walk. */
  lemma VisitsWalk(t: Links, rk: map<Id, nat>, gate: set<Id>, x: Id)
    requires Valid(t, rk) && x in t
    ensures forall y :: y in t ==> (y in Visits(t, rk, gate, x) <==>
      y == x || (x in gate && t[y].parent.Some? && t[y].parent.value in Walk(t, rk, gate, x)))
  {
    VisitsComplete(t, rk, gate, x);
    WalkComplete(t, rk, gate, x);
  }

  /** A pass from `w` to `s` that entered the nodes `v`: each node of `v`
      was started once if it was pending and not at all otherwise, and
      is no longer pending; every other node was neither started nor
      changed; links and `destroyedComponents` are as before. */
  ghost predicate StartsExactly(w: World, s: Step, v: seq<Id>)
  {
    && s.w.links == w.links && s.w.destroyedComponents == w.destroyedComponents && s.w.nodes.Keys == w.nodes.Keys
    && (forall y :: y in w.nodes ==> s.w.nodes[y] == if y in v then w.nodes[y].(needStartExec := false) else w.nodes[y])
    && (forall y :: y in w.nodes ==> Count(s.trace, Event(y, OnStart)) == if y in v && w.nodes[y].needStartExec then 1 else 0)
  }

  lemma StartsExactlyCompose(a: World, b: Step, c: Step, p: seq<Id>, q: seq<Id>)
    requires StartsExactly(a, b, p) && StartsExactly(b.w, c, q)
    requires forall y :: y in q ==> y !in p
    ensures StartsExactly(a, Step(c.w, b.trace + c.trace), p + q)
  {
    forall y | y in a.nodes
      ensures Count(b.trace + c.trace, Event(y, OnStart)) == Count(b.trace, Event(y, OnStart)) + Count(c.trace, Event(y, OnStart))
    {
      CountAppend(b.trace, c.trace, Event(y, OnStart));
    }
  }

  lemma StartsExactlyHook(w: World, x: Id, h: Hook)
    requires h != OnStart
    ensures StartsExactly(w, Step(w, [Event(x, h)]), [])
  {
    forall y | y in w.nodes ensures Count([Event(x, h)], Event(y, OnStart)) == 0 {
      assert [Event(x, h)][1..] == [];
    }
  }

  lemma StartIfPendingExactly(w: World, x: Id)
    requires WF(w) && x in w.nodes
    ensures StartsExactly(w, StartIfPending(w, x), [x])
  {
    var s := StartIfPending(w, x);
    StartIfPendingOnce(w, x);
    StartIfPendingOk(w, x);
    forall y | y in w.nodes
      ensures Count(s.trace, Event(y, OnStart)) == (if w.nodes[x].needStartExec && y == x then 1 else 0)
    {
      if w.nodes[x].needStartExec {
        assert s.trace[1..] == [];
      }
    }
  }

  lemma StartsExactlyRunning(w: World, s: Step, v: seq<Id>)
    requires StartsExactly(w, s, v)
    ensures Running(s.w) == Running(w)
  {
    assert OnlyStarts(w, s.w);
    OnlyStartsRunning(w, s.w);
  }

  /** `draw()` starts exactly the nodes it enters, each once if it was
      pending (whether or not it then runs), and changes nothing else. */
  lemma {:induction false} DrawStartsExactly(w: World, rk: map<Id, nat>, x: Id)
    requires WF(w) && Valid(w.links, rk) && x in w.nodes
    ensures StartsExactly(w, Draw(w, rk, x), Visits(w.links, rk, Running(w), x))
    decreases rk[x], 1
  {
    var s0 := StartIfPending(w, x);
    StartIfPendingExactly(w, x);
    var n := w.nodes[x];
    if n.isActive && !n.destroyed {
      assert x in Running(w);
      DrawRunningExactly(w, rk, x, s0);
    } else {
      assert x !in Running(w);
      assert Draw(w, rk, x) == s0;
    }
  }

  lemma {:induction false} DrawRunningExactly(w: World, rk: map<Id, nat>, x: Id, s0: Step)
    requires WF(w) && Valid(w.links, rk) && x in w.nodes && x in Running(w)
    requires s0 == StartIfPending(w, x) && StartsExactly(w, s0, [x])
    ensures StartsExactly(w, Draw(w, rk, x), Visits(w.links, rk, Running(w), x))
    decreases rk[x], 0, |w.links[x].children| + 1
  {
    var t := w.links;
    var R := Running(w);
    StartsExactlyRunning(w, s0, [x]);
    assert s0.w.nodes[x].isActive && !s0.w.nodes[x].destroyed;
    var s1 := DrawChildren(s0.w, rk, x, 0);
    var from := VisitsFrom(t, rk, R, x, 0);
    DrawChildrenStartsExactly(s0.w, rk, x, 0);
    VisitsFromSound(t, rk, R, x, 0);
    StartsExactlyHook(s0.w, x, OnDraw);
    StartsExactlyCompose(w, s0, Step(s0.w, [Event(x, OnDraw)]), [x], []);
    assert [x] + [] == [x];
    var mid := Step(s1.w, s0.trace + [Event(x, OnDraw)] + s1.trace);
    StartsExactlyCompose(w, Step(s0.w, s0.trace + [Event(x, OnDraw)]), s1, [x], from);
    StartsExactlyHook(s1.w, x, PostDraw);
    StartsExactlyCompose(w, mid, Step(s1.w, [Event(x, PostDraw)]), [x] + from, []);
    assert [x] + from + [] == Visits(t, rk, R, x);
    assert Draw(w, rk, x) == Step(s1.w, mid.trace + [Event(x, PostDraw)]);
  }

  lemma {:induction false} DrawChildrenStartsExactly(w: World, rk: map<Id, nat>, x: Id, i: nat)
    requires WF(w) && Valid(w.links, rk) && x in w.nodes && i <= |w.links[x].children|
    ensures StartsExactly(w, DrawChildren(w, rk, x, i), VisitsFrom(w.links, rk, Running(w), x, i))
    decreases rk[x], 0, |w.links[x].children| - i
  {
    var t := w.links;
    if i < |t[x].children| {
      var R := Running(w);
      var c := t[x].children[i];
      ChildRank(t, rk, x, c);
      var s1 := Draw(w, rk, c);
      DrawStartsExactly(w, rk, c);
      StartsExactlyRunning(w, s1, Visits(t, rk, R, c));
      var s2 := DrawChildren(s1.w, rk, x, i + 1);
      DrawChildrenStartsExactly(s1.w, rk, x, i + 1);
      VisitsSound(t, rk, R, c);
      VisitsFromSound(t, rk, R, x, i + 1);
      StartsExactlyCompose(w, s1, s2, Visits(t, rk, R, c), VisitsFrom(t, rk, R, x, i + 1));
      assert DrawChildren(w, rk, x, i) == Step(s2.w, s1.trace + s2.trace);
    }
  }

  // ---------------------------------------------------------------------
  // settled worlds

  /** Every node started and no timer queued. */
  ghost predicate Settled(w: World)
  {
    forall y :: y in w.nodes ==> !w.nodes[y].needStartExec && w.nodes[y].timers == []
  }

  /** In a settled world `update()` changes nothing, and its hook calls are
      the bracketed walk over the running nodes: `onUpdate` before and
      `postUpdate` after each running node's children, an inactive or
      destroyed node skipped with its whole subtree. */
  lemma {:induction false} UpdateSettled(w: World, rk: map<Id, nat>, x: Id, now: real)
    requires WF(w) && Valid(w.links, rk) && x in w.nodes && Settled(w)
    ensures Update(w, rk, x, now) ==
      if x in Running(w) then Step(w, Bracket(w.links, rk, Running(w), x, OnUpdate, PostUpdate)) else Step(w, [])
    decreases rk[x], 1
  {
    var n := w.nodes[x];
    if n.isActive && !n.destroyed {
      assert x in Running(w);
      assert Update(w, rk, x, now) == Step(w, [Event(x, OnUpdate)] + BracketFrom(w.links, rk, Running(w), x, 0, OnUpdate, PostUpdate) + [Event(x, PostUpdate)]) by {
        QuietPrologue(w, x, now);
        UpdateChildrenSettled(w, rk, x, 0, now);
      }
    } else {
      assert x !in Running(w);
      assert Update(w, rk, x, now) == Step(w, []) by {
        QuietPrologue(w, x, now);
      }
    }
  }

  /** In a settled world the prologue and the timer loop do nothing. */
  lemma QuietPrologue(w: World, x: Id, now: real)
    requires WF(w) && x in w.nodes && !w.nodes[x].needStartExec && w.nodes[x].timers == []
    ensures StartIfPending(w, x) == Step(w, []) && Drain(w, x, now) == Step(w, [])
  {
  }

  lemma {:induction false} UpdateChildrenSettled(w: World, rk: map<Id, nat>, x: Id, i: nat, now: real)
    requires WF(w) && Valid(w.links, rk) && x in w.nodes && Settled(w) && i <= |w.links[x].children|
    ensures UpdateChildren(w, rk, x, i, now) == Step(w, BracketFrom(w.links, rk, Running(w), x, i, OnUpdate, PostUpdate))
    decreases rk[x], 0, |w.links[x].children| - i
  {
    if i < |w.links[x].children| {
      var c := w.links[x].children[i];
      ChildRank(w.links, rk, x, c);
      var s1 := Update(w, rk, c, now);
      assert s1 == (if c in Running(w) then Step(w, Bracket(w.links, rk, Running(w), c, OnUpdate, PostUpdate)) else Step(w, [])) by {
        UpdateSettled(w, rk, c, now);
      }
      assert UpdateChildren(w, rk, x, i + 1, now) == Step(w, BracketFrom(w.links, rk, Running(w), x, i + 1, OnUpdate, PostUpdate)) by {
        UpdateChildrenSettled(w, rk, x, i + 1, now);
      }
    }
  }

  /** Once every node is started `draw()` changes nothing, and its hook
      calls are the bracketed walk over the running nodes. */
  lemma {:induction false} DrawSettled(w: World, rk: map<Id, nat>, x: Id)
    requires WF(w) && Valid(w.links, rk) && x in w.nodes
    requires forall y :: y in w.nodes ==> !w.nodes[y].needStartExec
    ensures Draw(w, rk, x) ==
      if x in Running(w) then Step(w, Bracket(w.links, rk, Running(w), x, OnDraw, PostDraw)) else Step(w, [])
    decreases rk[x], 1
  {
    var n := w.nodes[x];
    assert StartIfPending(w, x) == Step(w, []);
    if n.isActive && !n.destroyed {
      assert x in Running(w);
      assert DrawChildren(w, rk, x, 0) == Step(w, BracketFrom(w.links, rk, Running(w), x, 0, OnDraw, PostDraw)) by {
        DrawChildrenSettled(w, rk, x, 0);
      }
      assert Draw(w, rk, x) == Step(w, [Event(x, OnDraw)] + BracketFrom(w.links, rk, Running(w), x, 0, OnDraw, PostDraw) + [Event(x, PostDraw)]);
    } else {
      assert x !in Running(w);
    }
  }

  lemma {:induction false} DrawChildrenSettled(w: World, rk: map<Id, nat>, x: Id, i: nat)
    requires WF(w) && Valid(w.links, rk) && x in w.nodes && i <= |w.links[x].children|
    requires forall y :: y in w.nodes ==> !w.nodes[y].needStartExec
    ensures DrawChildren(w, rk, x, i) == Step(w, BracketFrom(w.links, rk, Running(w), x, i, OnDraw, PostDraw))
    decreases rk[x], 0, |w.links[x].children| - i
  {
    if i < |w.links[x].children| {
      var c := w.links[x].children[i];
      ChildRank(w.links, rk, x, c);
      var s1 := Draw(w, rk, c);
      assert s1 == (if c in Running(w) then Step(w, Bracket(w.links, rk, Running(w), c, OnDraw, PostDraw)) else Step(w, [])) by {
        DrawSettled(w, rk, c);
      }
      assert DrawChildren(w, rk, x, i + 1) == Step(w, BracketFrom(w.links, rk, Running(w), x, i + 1, OnDraw, PostDraw)) by {
        DrawChildrenSettled(w, rk, x, i + 1);
      }
    }
  }

  // ---------------------------------------------------------------------
  // update over any world

  /** `update()` on `x` touches only `x`'s subtree, and calls hooks only
      there. */
  lemma {:induction false} UpdateOutside(w: World, rk: map<Id, nat>, x: Id, now: real)
    requires WF(w) && Valid(w.links, rk) && x in w.nodes
    ensures var s := Update(w, rk, x, now);
      && KeepsOutside(w, s.w, rk, x)
      && (forall e :: e in s.trace ==> e.node in w.links && Anc(w.links, rk, e.node, x))
    decreases rk[x], 1
  {
    var s0 := StartIfPending(w, x);
    var s1 := Drain(s0.w, x, now);
    assert KeepsOutside(w, s0.w, rk, x);
    DrainOutside(s0.w, rk, x, 0, now);
    DrainFrame(s0.w, x, 0, now);
    KeepsOutsideTrans(w, s0.w, s1.w, rk, x);
    assert forall e :: e in s0.trace + s1.trace ==> e.node == x;
    if s1.w.nodes[x].isActive && !s1.w.nodes[x].destroyed {
      var s2 := UpdateChildren(s1.w, rk, x, 0, now);
      UpdateChildrenOutside(s1.w, rk, x, 0, now);
      KeepsOutsideTrans(w, s1.w, s2.w, rk, x);
      assert Update(w, rk, x, now) == Step(s2.w, s0.trace + s1.trace + [Event(x, OnUpdate)] + s2.trace + [Event(x, PostUpdate)]);
    }
  }

  /** The loop over the children leaves `x` itself and everything outside
      its subtree alone, and calls hooks only on strict descendants. */
  lemma {:induction false} UpdateChildrenOutside(w: World, rk: map<Id, nat>, x: Id, i: nat, now: real)
    requires WF(w) && Valid(w.links, rk) && x in w.nodes && i <= |w.links[x].children|
    ensures var s := UpdateChildren(w, rk, x, i, now);
      && KeepsOutside(w, s.w, rk, x) && s.w.nodes[x] == w.nodes[x]
      && (forall e :: e in s.trace ==> e.node in w.links && e.node != x && Anc(w.links, rk, e.node, x))
    decreases rk[x], 0, |w.links[x].children| - i
  {
    var t := w.links;
    if i < |t[x].children| {
      var c := t[x].children[i];
      ChildRank(t, rk, x, c);
      var s1 := Update(w, rk, c, now);
      var s2 := UpdateChildren(s1.w, rk, x, i + 1, now);
      UpdateOutside(w, rk, c, now);
      UpdateChildrenOutside(s1.w, rk, x, i + 1, now);
      assert !Anc(t, rk, x, c) by {
        if Anc(t, rk, x, c) {
          AncRank(t, rk, x, c);
        }
      }
      forall y | y in w.nodes && Anc(t, rk, y, c)
        ensures Anc(t, rk, y, x)
      {
        AncStep(t, rk, y, c, x);
      }
      assert KeepsOutside(w, s1.w, rk, x);
      KeepsOutsideTrans(w, s1.w, s2.w, rk, x);
      assert UpdateChildren(w, rk, x, i, now) == Step(s2.w, s1.trace + s2.trace);
    }
  }

  /** `tr` is `head`, then `onUpdate` of `x`, then hook calls on strict
      descendants of `x` with the children's subtrees in child order, and
      `postUpdate` of `x` last. */
  ghost predicate RunsAfter(t: Links, rk: map<Id, nat>, x: Id, head: seq<Event>, tr: seq<Event>)
    requires Valid(t, rk) && x in t
  {
    && |head| + 2 <= |tr| && tr[..|head|] == head
    && tr[|head|] == Event(x, OnUpdate) && tr[|tr| - 1] == Event(x, PostUpdate)
    && (forall k :: |head| < k < |tr| - 1 ==> tr[k].node in t && tr[k].node != x && Anc(t, rk, tr[k].node, x))
    && ChildOrdered(t, rk, x, tr[|head| + 1..|tr| - 1])
  }

  lemma BracketRuns(t: Links, rk: map<Id, nat>, x: Id, head: seq<Event>, b: seq<Event>)
    requires Valid(t, rk) && x in t
    requires forall e :: e in b ==> e.node in t && e.node != x && Anc(t, rk, e.node, x)
    requires ChildOrdered(t, rk, x, b)
    ensures RunsAfter(t, rk, x, head, head + [Event(x, OnUpdate)] + b + [Event(x, PostUpdate)])
  {
  }

  /** `update()` on any world, whatever the flags and timers: the start
      prologue runs exactly when `x` is pending, then the timer loop, which
      records only `x`'s callbacks; without a self-destroy of a live node
      it leaves `x` the timers still waiting and records every due
      callback in queue order. `x` then runs exactly when it is
      active, not destroyed and has no self-destroy due: `onUpdate`, then
      for each child in order exactly the calls that child's own
      `update()` makes from the world the timer loop left (hook calls of
      strict descendants, the children's subtrees in child order), and
      `postUpdate` last. Otherwise nothing follows the timer callbacks.
      The children never change `x` itself. */
  lemma UpdateShape(w: World, rk: map<Id, nat>, x: Id, now: real)
    requires WF(w) && Valid(w.links, rk) && x in w.nodes
    ensures var n := w.nodes[x]; var t := w.links;
      var s0 := StartIfPending(w, x); var s1 := Drain(s0.w, x, now);
      var head := s0.trace + s1.trace; var s := Update(w, rk, x, now);
      && s0.trace == (if n.needStartExec then [Event(x, OnStart)] else [])
      && (forall e :: e in s1.trace ==> e == Event(x, e.hook) && e.hook.TimerFired?)
      && s.w.nodes[x] == s1.w.nodes[x] && !s.w.nodes[x].needStartExec
      && (n.destroyed || DestroySelf !in DueActions(n.timers, now) ==>
            && s.w.nodes[x] == n.(needStartExec := false, timers := Waiting(n.timers, now))
            && s1.trace == Calls(x, DueActions(n.timers, now)))
      && |head| <= |s.trace| && s.trace[..|head|] == head
      && (if n.isActive && !n.destroyed && DestroySelf !in DueActions(n.timers, now)
          then
            && RunsAfter(t, rk, x, head, s.trace)
            && s.trace == head + [Event(x, OnUpdate)] + ChildTraces(s1.w, rk, x, 0, now) + [Event(x, PostUpdate)]
          else s.trace == head)
  {
    var n := w.nodes[x];
    var s0 := StartIfPending(w, x);
    var s1 := Drain(s0.w, x, now);
    var head := s0.trace + s1.trace;
    assert s0.w.nodes[x] == n.(needStartExec := false);
    DrainOutcome(s0.w, x, now);
    DrainFrame(s0.w, x, 0, now);
    if n.isActive && !n.destroyed && DestroySelf !in DueActions(n.timers, now) {
      var s2 := UpdateChildren(s1.w, rk, x, 0, now);
      UpdateChildrenOutside(s1.w, rk, x, 0, now);
      UpdateChildrenOrder(s1.w, rk, x, 0, now);
      UpdateChildrenIsChildTraces(s1.w, rk, x, 0, now);
      assert Update(w, rk, x, now) == Step(s2.w, head + [Event(x, OnUpdate)] + s2.trace + [Event(x, PostUpdate)]);
      BracketRuns(w.links, rk, x, head, s2.trace);
    } else {
      assert Update(w, rk, x, now) == Step(s1.w, head);
      assert head[..|head|] == head;
    }
  }

  /** A live node with a self-destroy due, the first at position `k`:
      `update()` records its start and the callbacks due before that timer,
      then destroys the node, whose queue keeps only the timers that were
      waiting before `k`, all canceled; nothing else runs. */
  lemma UpdateSelfDestroy(w: World, rk: map<Id, nat>, x: Id, k: nat, now: real)
    requires WF(w) && Valid(w.links, rk) && x in w.nodes && !w.nodes[x].destroyed
    requires FirstDueDestroy(w.nodes[x].timers, 0, k, now)
    ensures var n := w.nodes[x]; var ts := n.timers; var s := Update(w, rk, x, now);
      && s.trace == StartIfPending(w, x).trace + Calls(x, DueActions(ts[..k], now))
      && s.w.nodes[x] == n.(needStartExec := false, destroyed := true, timers := CancelAll(Waiting(ts[..k], now)))
  {
    var n := w.nodes[x];
    var ts := n.timers;
    var s0 := StartIfPending(w, x);
    assert s0.w.nodes[x] == n.(needStartExec := false);
    DrainDestroy(s0.w, x, 0, k, now);
    assert ts[0..k] == ts[..k] && ts[..0] == [];
    assert Pre(ts, 0, k, now) == Waiting(ts[..k], now);
    var s1 := Drain(s0.w, x, now);
    assert s1.w.nodes[x].destroyed;
    assert Update(w, rk, x, now) == Step(s1.w, s0.trace + s1.trace);
  }

  /** When `x` is inactive, already destroyed, or has a self-destroy due,
      `update()` reaches none of its descendants: it records only `x`'s own
      start and timer callbacks and leaves the world as the timer loop
      left it. */
  lemma UpdateInactive(w: World, rk: map<Id, nat>, x: Id, now: real)
    requires WF(w) && Valid(w.links, rk) && x in w.nodes
    requires !w.nodes[x].isActive || w.nodes[x].destroyed || DestroySelf in DueActions(w.nodes[x].timers, now)
    ensures forall e :: e in Update(w, rk, x, now).trace ==> e.node == x && (e.hook == OnStart || e.hook.TimerFired?)
    ensures Update(w, rk, x, now).w == Drain(StartIfPending(w, x).w, x, now).w
  {
    var s0 := StartIfPending(w, x);
    var s1 := Drain(s0.w, x, now);
    UpdateShape(w, rk, x, now);
    assert Update(w, rk, x, now) == Step(s1.w, s0.trace + s1.trace);
  }

  /** A node below child `i` of `x` is below no other child of `x`. */
  lemma BelowOneChild(t: Links, rk: map<Id, nat>, x: Id, i: nat, y: Id)
    requires Valid(t, rk) && x in t && i < |t[x].children| && y in t && Anc(t, rk, y, t[x].children[i])
    ensures forall m :: 0 <= m < |t[x].children| && m != i ==> !Anc(t, rk, y, t[x].children[m])
  {
    forall m | 0 <= m < |t[x].children| && m != i && Anc(t, rk, y, t[x].children[m])
      ensures false
    {
      AncUnique(t, rk, y, t[x].children[i], t[x].children[m], x);
    }
  }

  /** In `tr` the hook calls on the subtrees of `x`'s children come in child
      order: after a call inside the subtree of child `j`, no call inside
      the subtree of an earlier child follows. */
  ghost predicate ChildOrdered(t: Links, rk: map<Id, nat>, x: Id, tr: seq<Event>)
    requires Valid(t, rk) && x in t
  {
    forall k1, k2, i, j ::
      (&& 0 <= k1 < k2 < |tr| && 0 <= i < j < |t[x].children|
       && tr[k1].node in t && tr[k2].node in t && Anc(t, rk, tr[k1].node, t[x].children[j]))
      ==> !Anc(t, rk, tr[k2].node, t[x].children[i])
  }

  /** The loop over the children from position `i` calls no hook below an
      earlier child, and updates the children's subtrees one after the
      other, in child order. */
  lemma {:induction false} UpdateChildrenOrder(w: World, rk: map<Id, nat>, x: Id, i: nat, now: real)
    requires WF(w) && Valid(w.links, rk) && x in w.nodes && i <= |w.links[x].children|
    ensures var t := w.links; var tr := UpdateChildren(w, rk, x, i, now).trace;
      && (forall e, m :: e in tr && e.node in t && 0 <= m < i ==> !Anc(t, rk, e.node, t[x].children[m]))
      && ChildOrdered(t, rk, x, tr)
    decreases |w.links[x].children| - i
  {
    var t := w.links;
    var ch := t[x].children;
    if i < |ch| {
      var c := ch[i];
      ChildRank(t, rk, x, c);
      var s1 := Update(w, rk, c, now);
      var s2 := UpdateChildren(s1.w, rk, x, i + 1, now);
      var a := s1.trace;
      var b := s2.trace;
      var tr := a + b;
      assert UpdateChildren(w, rk, x, i, now).trace == tr;
      UpdateOutside(w, rk, c, now);
      UpdateChildrenOrder(s1.w, rk, x, i + 1, now);
      ChildOrderedAppend(t, rk, x, i, a, b);
    }
  }

  /** The calls of child `i`'s subtree, followed by calls that lie below no
      child up to `i` and are in child order, are in child order. */
  lemma ChildOrderedAppend(t: Links, rk: map<Id, nat>, x: Id, i: nat, a: seq<Event>, b: seq<Event>)
    requires Valid(t, rk) && x in t && i < |t[x].children|
    requires forall e :: e in a ==> e.node in t && Anc(t, rk, e.node, t[x].children[i])
    requires forall e, m :: e in b && e.node in t && 0 <= m < i + 1 ==> !Anc(t, rk, e.node, t[x].children[m])
    requires ChildOrdered(t, rk, x, b)
    ensures forall e, m :: e in a + b && e.node in t && 0 <= m < i ==> !Anc(t, rk, e.node, t[x].children[m])
    ensures ChildOrdered(t, rk, x, a + b)
  {
    var ch := t[x].children;
    var tr := a + b;
    forall e | e in a
      ensures forall m :: 0 <= m < |ch| && m != i ==> !Anc(t, rk, e.node, ch[m])
    {
      BelowOneChild(t, rk, x, i, e.node);
    }
    forall k1, k2, i', j | 0 <= k1 < k2 < |tr| && 0 <= i' < j < |ch| &&
      tr[k1].node in t && tr[k2].node in t && Anc(t, rk, tr[k1].node, ch[j])
      ensures !Anc(t, rk, tr[k2].node, ch[i'])
    {
      if k1 < |a| {
        assert tr[k1] in a;
        if k2 < |a| {
          assert tr[k2] in a;
        } else {
          assert tr[k2] == b[k2 - |a|];
        }
      } else {
        assert tr[k1] == b[k1 - |a|] && tr[k2] == b[k2 - |a|];
      }
    }
  }

  /** `update()` reads only the subtree it runs on: from two worlds that
      agree on `x`'s subtree it makes the same hook calls and leaves two
      worlds that still agree there. */
  lemma {:induction false} UpdateCongruent(w: World, v: World, rk: map<Id, nat>, x: Id, now: real)
    requires WF(w) && WF(v) && Valid(w.links, rk) && x in w.nodes && AgreeBelow(w, v, rk, x)
    ensures Update(w, rk, x, now).trace == Update(v, rk, x, now).trace
    ensures AgreeBelow(Update(w, rk, x, now).w, Update(v, rk, x, now).w, rk, x)
    decreases rk[x], 1
  {
    assert Anc(w.links, rk, x, x);
    var a0 := StartIfPending(w, x);
    var b0 := StartIfPending(v, x);
    assert a0.trace == b0.trace && AgreeBelow(a0.w, b0.w, rk, x);
    DrainCongruent(a0.w, b0.w, rk, x, 0, now);
    var a1 := Drain(a0.w, x, now);
    var b1 := Drain(b0.w, x, now);
    assert a1.w.nodes[x] == b1.w.nodes[x];
    if a1.w.nodes[x].isActive && !a1.w.nodes[x].destroyed {
      UpdateChildrenCongruent(a1.w, b1.w, rk, x, 0, now);
    }
  }

  lemma {:induction false} UpdateChildrenCongruent(w: World, v: World, rk: map<Id, nat>, x: Id, i: nat, now: real)
    requires WF(w) && WF(v) && Valid(w.links, rk) && x in w.nodes && AgreeBelow(w, v, rk, x)
    requires i <= |w.links[x].children|
    ensures UpdateChildren(w, rk, x, i, now).trace == UpdateChildren(v, rk, x, i, now).trace
    ensures AgreeBelow(UpdateChildren(w, rk, x, i, now).w, UpdateChildren(v, rk, x, i, now).w, rk, x)
    decreases rk[x], 0, |w.links[x].children| - i
  {
    var t := w.links;
    if i < |t[x].children| {
      var c := t[x].children[i];
      ChildRank(t, rk, x, c);
      AgreeChild(w, v, rk, x, c);
      UpdateCongruent(w, v, rk, c, now);
      var a1 := Update(w, rk, c, now);
      var b1 := Update(v, rk, c, now);
      UpdateOutside(w, rk, c, now);
      UpdateOutside(v, rk, c, now);
      AgreeWiden(w, v, a1.w, b1.w, rk, x, c);
      UpdateChildrenCongruent(a1.w, b1.w, rk, x, i + 1, now);
      var a2 := UpdateChildren(a1.w, rk, x, i + 1, now);
      var b2 := UpdateChildren(b1.w, rk, x, i + 1, now);
      assert UpdateChildren(w, rk, x, i, now) == Step(a2.w, a1.trace + a2.trace);
      assert UpdateChildren(v, rk, x, i, now) == Step(b2.w, b1.trace + b2.trace);
    }
  }

  /** Reference for the loop over the children: the hook calls each child's
      `update()` would make from the same world `w`, one child after the
      other. */
  ghost function ChildTraces(w: World, rk: map<Id, nat>, x: Id, i: nat, now: real): seq<Event>
    requires WF(w) && Valid(w.links, rk) && x in w.nodes && i <= |w.links[x].children|
    decreases |w.links[x].children| - i
  {
    if i == |w.links[x].children| then []
    else
      ChildRank(w.links, rk, x, w.links[x].children[i]);
      Update(w, rk, w.links[x].children[i], now).trace + ChildTraces(w, rk, x, i + 1, now)
  }

  lemma {:induction false} ChildTracesFrame(w: World, v: World, rk: map<Id, nat>, x: Id, i: nat, now: real)
    requires WF(w) && WF(v) && Valid(w.links, rk) && x in w.nodes && i <= |w.links[x].children|
    requires v.links == w.links && v.nodes.Keys == w.nodes.Keys
    requires forall j :: i <= j < |w.links[x].children| ==> AgreeBelow(w, v, rk, w.links[x].children[j])
    ensures ChildTraces(w, rk, x, i, now) == ChildTraces(v, rk, x, i, now)
    decreases |w.links[x].children| - i
  {
    if i < |w.links[x].children| {
      ChildRank(w.links, rk, x, w.links[x].children[i]);
      UpdateCongruent(w, v, rk, w.links[x].children[i], now);
      ChildTracesFrame(w, v, rk, x, i + 1, now);
    }
  }

  /** The loop over the children makes exactly the calls of the children's
      subtrees, one subtree after the other, each as that child's
      `update()` from the loop's starting world: a child sees nothing its
      earlier siblings changed. */
  lemma {:induction false} UpdateChildrenIsChildTraces(w: World, rk: map<Id, nat>, x: Id, i: nat, now: real)
    requires WF(w) && Valid(w.links, rk) && x in w.nodes && i <= |w.links[x].children|
    ensures UpdateChildren(w, rk, x, i, now).trace == ChildTraces(w, rk, x, i, now)
    decreases |w.links[x].children| - i
  {
    var t := w.links;
    var ch := t[x].children;
    if i < |ch| {
      var c := ch[i];
      ChildRank(t, rk, x, c);
      var s1 := Update(w, rk, c, now);
      UpdateChildrenIsChildTraces(s1.w, rk, x, i + 1, now);
      UpdateOutside(w, rk, c, now);
      forall j | i < j < |ch|
        ensures AgreeBelow(s1.w, w, rk, ch[j])
      {
        forall y | y in s1.w.nodes && Anc(t, rk, y, ch[j])
          ensures w.nodes[y] == s1.w.nodes[y]
        {
          BelowOneChild(t, rk, x, j, y);
        }
      }
      ChildTracesFrame(s1.w, w, rk, x, i + 1, now);
    }
  }

  // ---------------------------------------------------------------------
  // key, mouse and file-drop input

  /** What a node does of its own accord on an input event, before its
      handler hook runs. `local` is the pointer in the node's frame (what
      `isMouseInside` tests) and `move` the pointer's movement since the
      previous frame, also in the node's frame (`getMousePos() -
      getPreviousMousePos()`), which is added unchanged to the position.
      A press on a draggable node inside its box starts a drag; a drag
      moves a dragging node by `move`; a release ends any drag. Other events change nothing. */
  function Respond(n: Node, kind: InputKind, local: Vec, move: Vec): (e: Edit)
    ensures e.node == n.(rect := e.node.rect, dragging := e.node.dragging)
    ensures kind == MousePressed ==>
      e == Edit(n.(dragging := n.dragging || (n.draggable && Inside(n, local.x, local.y))), false)
    ensures kind == MouseDragged && n.dragging ==>
      GetPos(e.node) == Vec(n.rect.x + move.x, n.rect.y + move.y) &&
      e.node.rect.width == n.rect.width && e.node.rect.height == n.rect.height &&
      e.node.dragging && (e.matrixChanged <==> move != Vec(0.0, 0.0))
    ensures kind == MouseReleased ==> e == Edit(n.(dragging := false), false)
    ensures kind !in {MousePressed, MouseDragged, MouseReleased} || (kind == MouseDragged && !n.dragging) ==> e == Edit(n, false)
    ensures DragInv(n) ==> DragInv(e.node)
  {
    match kind
    case MousePressed =>
      if n.draggable && Inside(n, local.x, local.y) then Edit(n.(dragging := true), false) else Edit(n, false)
    case MouseDragged =>
      if n.dragging then SetPos(n, n.rect.x + move.x, n.rect.y + move.y) else Edit(n, false)
    case MouseReleased =>
      Edit(n.(dragging := false), false)
    case _ => Edit(n, false)
  }

  /** The hook calls of one node on an input event: `onLocalMatrixChanged`
      if its own response moved it, then the handler hook for the event. */
  function Reaction(e: Edit, y: Id, kind: InputKind): seq<Event>
  {
    (if e.matrixChanged then [Event(y, OnLocalMatrixChanged)] else []) + [Event(y, OnInput(kind))]
  }

  /** The shared recursion of `keyPressed`, `keyReleased`, `mouseMoved`,
      `mousePressed`, `mouseDragged`, `mouseReleased`, `mouseScrolled` and
      `dragEvent`: an inactive node, or one with input switched off, ignores
      the event and hides it from its subtree; otherwise the node responds,
      its hook runs, and each child gets the event in order. The destroyed
      flag is not consulted. */
  function Dispatch(w: World, ghost rk: map<Id, nat>, x: Id, kind: InputKind, local: Id -> Vec, move: Id -> Vec): (s: Step)
    requires WF(w) && Valid(w.links, rk) && x in w.nodes
    ensures WF(s.w) && s.w.links == w.links && s.w.nodes.Keys == w.nodes.Keys
    decreases rk[x], 1
  {
    var n := w.nodes[x];
    if !n.isActive || !n.keyMouseEventEnabled then Step(w, [])
    else
      var e := Respond(n, kind, local(x), move(x));
      var s := DispatchChildren(SetNode(w, x, e.node), rk, x, 0, kind, local, move);
      Step(s.w, Reaction(e, x, kind) + s.trace)
  }

  function DispatchChildren(w: World, ghost rk: map<Id, nat>, x: Id, i: nat, kind: InputKind, local: Id -> Vec, move: Id -> Vec): (s: Step)
    requires WF(w) && Valid(w.links, rk) && x in w.nodes && i <= |w.links[x].children|
    ensures WF(s.w) && s.w.links == w.links && s.w.nodes.Keys == w.nodes.Keys
    decreases rk[x], 0, |w.links[x].children| - i
  {
    if i == |w.links[x].children| then Step(w, [])
    else
      var c := w.links[x].children[i];
      ChildRank(w.links, rk, x, c);
      var s1 := Dispatch(w, rk, c, kind, local, move);
      var s2 := DispatchChildren(s1.w, rk, x, i + 1, kind, local, move);
      Step(s2.w, s1.trace + s2.trace)
  }

  /** Reference for a dispatch: `r` is `w` after every node listed in `S`
      has responded once to the event, each from its state in `w`; nothing
      else changes. */
  ghost predicate Answered(w: World, r: World, S: seq<Id>, kind: InputKind, local: Id -> Vec, move: Id -> Vec)
  {
    && r.links == w.links && r.destroyedComponents == w.destroyedComponents && r.nodes.Keys == w.nodes.Keys
    && (forall y :: y in w.nodes ==>
          r.nodes[y] == if y in S then Respond(w.nodes[y], kind, local(y), move(y)).node else w.nodes[y])
  }

  /** Reference for a dispatch's hook calls: the reactions of the nodes of
      `S` in order, each from its state in `w`. */
  ghost function Reactions(w: World, S: seq<Id>, kind: InputKind, local: Id -> Vec, move: Id -> Vec): seq<Event>
    requires forall y :: y in S ==> y in w.nodes
  {
    if S == [] then []
    else
      var y := S[0];
      assert y in S;
      Reaction(Respond(w.nodes[y], kind, local(y), move(y)), y, kind) + Reactions(w, S[1..], kind, local, move)
  }

  lemma {:induction false} ReactionsAppend(w: World, a: seq<Id>, b: seq<Id>, kind: InputKind, local: Id -> Vec, move: Id -> Vec)
    requires forall y :: y in a + b ==> y in w.nodes
    ensures Reactions(w, a + b, kind, local, move) == Reactions(w, a, kind, local, move) + Reactions(w, b, kind, local, move)
  {
    if a != [] {
      assert (a + b)[0] == a[0] && (a + b)[1..] == a[1..] + b;
      ReactionsAppend(w, a[1..], b, kind, local, move);
    } else {
      assert a + b == b;
    }
  }

  /** Nodes outside `A` react the same before and after `A` has responded. */
  lemma {:induction false} ReactionsFrame(w: World, m: World, a: seq<Id>, b: seq<Id>, kind: InputKind, local: Id -> Vec, move: Id -> Vec)
    requires Answered(w, m, a, kind, local, move)
    requires forall y :: y in b ==> y in w.nodes && y !in a
    ensures Reactions(m, b, kind, local, move) == Reactions(w, b, kind, local, move)
  {
    if b != [] {
      ReactionsFrame(w, m, a, b[1..], kind, local, move);
    }
  }

  lemma AnsweredCompose(w: World, m: World, r: World, a: seq<Id>, b: seq<Id>, kind: InputKind, local: Id -> Vec, move: Id -> Vec)
    requires Answered(w, m, a, kind, local, move) && Answered(m, r, b, kind, local, move)
    requires forall y :: y in b ==> y !in a
    ensures Answered(w, r, a + b, kind, local, move)
  {
  }

  /** Responding changes no activity or input switch, so it never changes
      which nodes listen. */
  lemma AnsweredListening(w: World, r: World, a: seq<Id>, kind: InputKind, local: Id -> Vec, move: Id -> Vec)
    requires Answered(w, r, a, kind, local, move)
    ensures Listening(r) == Listening(w)
  {
    forall y | y in w.nodes
      ensures r.nodes[y].isActive == w.nodes[y].isActive && r.nodes[y].keyMouseEventEnabled == w.nodes[y].keyMouseEventEnabled
    {
      var n := w.nodes[y];
      var e := Respond(n, kind, local(y), move(y));
      assert e.node == n.(rect := e.node.rect, dragging := e.node.dragging);
    }
  }

  /** `s` is the dispatch of an event to exactly the nodes of `S`. */
  ghost predicate DispatchOk(w: World, s: Step, S: seq<Id>, kind: InputKind, local: Id -> Vec, move: Id -> Vec)
  {
    && (forall y :: y in S ==> y in w.nodes)
    && Answered(w, s.w, S, kind, local, move)
    && s.trace == Reactions(w, S, kind, local, move)
  }

  /** Two dispatches in a row over disjoint node lists make one over both. */
  lemma DispatchCompose(w: World, s1: Step, s2: Step, a: seq<Id>, b: seq<Id>, kind: InputKind, local: Id -> Vec, move: Id -> Vec)
    requires DispatchOk(w, s1, a, kind, local, move) && DispatchOk(s1.w, s2, b, kind, local, move)
    requires forall y :: y in b ==> y !in a
    ensures DispatchOk(w, Step(s2.w, s1.trace + s2.trace), a + b, kind, local, move)
  {
    ReactionsFrame(w, s1.w, a, b, kind, local, move);
    AnsweredCompose(w, s1.w, s2.w, a, b, kind, local, move);
    ReactionsAppend(w, a, b, kind, local, move);
  }

  lemma DispatchUnfold(w: World, rk: map<Id, nat>, x: Id, kind: InputKind, local: Id -> Vec, move: Id -> Vec)
    requires WF(w) && Valid(w.links, rk) && x in w.nodes
    requires w.nodes[x].isActive && w.nodes[x].keyMouseEventEnabled
    ensures var e := Respond(w.nodes[x], kind, local(x), move(x));
      var s := DispatchChildren(SetNode(w, x, e.node), rk, x, 0, kind, local, move);
      Dispatch(w, rk, x, kind, local, move) == Step(s.w, Reaction(e, x, kind) + s.trace)
  {
  }

  lemma DispatchChildrenUnfold(w: World, rk: map<Id, nat>, x: Id, i: nat, kind: InputKind, local: Id -> Vec, move: Id -> Vec)
    requires WF(w) && Valid(w.links, rk) && x in w.nodes && i < |w.links[x].children|
    ensures var c := w.links[x].children[i];
      var s1 := Dispatch(w, rk, c, kind, local, move);
      var s2 := DispatchChildren(s1.w, rk, x, i + 1, kind, local, move);
      DispatchChildren(w, rk, x, i, kind, local, move) == Step(s2.w, s1.trace + s2.trace)
  {
    ChildRank(w.links, rk, x, w.links[x].children[i]);
  }

  /** An input event reaches exactly the nodes of the walk gated by
      listening, from a listening root: each responds once, from its state
      before the event, the hooks run in pre-order, and nothing else
      changes. From a root that does not listen nothing happens. */
  lemma {:induction false} DispatchIsWalk(w: World, rk: map<Id, nat>, x: Id, kind: InputKind, local: Id -> Vec, move: Id -> Vec)
    requires WF(w) && Valid(w.links, rk) && x in w.nodes
    ensures DispatchOk(w, Dispatch(w, rk, x, kind, local, move),
      if x in Listening(w) then Walk(w.links, rk, Listening(w), x) else [], kind, local, move)
    decreases rk[x], 1
  {
    var n := w.nodes[x];
    if n.isActive && n.keyMouseEventEnabled {
      assert x in Listening(w);
      DispatchListening(w, rk, x, kind, local, move);
    } else {
      assert x !in Listening(w);
      assert Dispatch(w, rk, x, kind, local, move) == Step(w, []);
    }
  }

  /** A single node's response is the dispatch to just that node. */
  lemma DispatchOne(w: World, x: Id, kind: InputKind, local: Id -> Vec, move: Id -> Vec)
    requires x in w.nodes
    ensures var e := Respond(w.nodes[x], kind, local(x), move(x));
      DispatchOk(w, Step(SetNode(w, x, e.node), Reaction(e, x, kind)), [x], kind, local, move)
  {
    var e := Respond(w.nodes[x], kind, local(x), move(x));
    var r := SetNode(w, x, e.node);
    forall y | y in w.nodes
      ensures r.nodes[y] == if y in [x] then Respond(w.nodes[y], kind, local(y), move(y)).node else w.nodes[y]
    {
    }
    assert Reactions(w, [x], kind, local, move) == Reaction(e, x, kind) + Reactions(w, [], kind, local, move);
  }

  /** The listening case of `DispatchIsWalk`. */
  lemma {:induction false} DispatchListening(w: World, rk: map<Id, nat>, x: Id, kind: InputKind, local: Id -> Vec, move: Id -> Vec)
    requires WF(w) && Valid(w.links, rk) && x in w.nodes
    requires w.nodes[x].isActive && w.nodes[x].keyMouseEventEnabled
    ensures DispatchOk(w, Dispatch(w, rk, x, kind, local, move), Walk(w.links, rk, Listening(w), x), kind, local, move)
    decreases rk[x], 0, |w.links[x].children| + 1
  {
    var e := Respond(w.nodes[x], kind, local(x), move(x));
    var s0 := Step(SetNode(w, x, e.node), Reaction(e, x, kind));
    var s := DispatchChildren(s0.w, rk, x, 0, kind, local, move);
    var from := WalkFrom(w.links, rk, Listening(w), x, 0);
    assert DispatchOk(w, s0, [x], kind, local, move) by {
      DispatchOne(w, x, kind, local, move);
    }
    assert DispatchOk(s0.w, s, from, kind, local, move) by {
      AnsweredListening(w, s0.w, [x], kind, local, move);
      DispatchChildrenIsWalk(s0.w, rk, x, 0, kind, local, move);
    }
    assert forall y :: y in from ==> y !in [x] by {
      RootNotBelow(w.links, rk, Listening(w), x);
    }
    assert Dispatch(w, rk, x, kind, local, move) == Step(s.w, s0.trace + s.trace) by {
      DispatchUnfold(w, rk, x, kind, local, move);
    }
    assert Walk(w.links, rk, Listening(w), x) == [x] + from;
    assert DispatchOk(w, Step(s.w, s0.trace + s.trace), [x] + from, kind, local, move) by {
      DispatchCompose(w, s0, s, [x], from, kind, local, move);
    }
  }

  lemma {:induction false} DispatchChildrenIsWalk(w: World, rk: map<Id, nat>, x: Id, i: nat, kind: InputKind, local: Id -> Vec, move: Id -> Vec)
    requires WF(w) && Valid(w.links, rk) && x in w.nodes && i <= |w.links[x].children|
    ensures DispatchOk(w, DispatchChildren(w, rk, x, i, kind, local, move), WalkFrom(w.links, rk, Listening(w), x, i), kind, local, move)
    decreases rk[x], 0, |w.links[x].children| - i, 1
  {
    if i < |w.links[x].children| {
      var c := w.links[x].children[i];
      ChildRank(w.links, rk, x, c);
      DispatchChildHead(w, rk, x, i, kind, local, move);
      DispatchChildrenIsWalk(Dispatch(w, rk, c, kind, local, move).w, rk, x, i + 1, kind, local, move);
      DispatchChildrenStep(w, rk, x, i, kind, local, move);
    }
  }

  /** The first child of `DispatchChildrenIsWalk`'s step. */
  lemma {:induction false} DispatchChildHead(w: World, rk: map<Id, nat>, x: Id, i: nat, kind: InputKind, local: Id -> Vec, move: Id -> Vec)
    requires WF(w) && Valid(w.links, rk) && x in w.nodes && i < |w.links[x].children|
    ensures var c := w.links[x].children[i];
      var s1 := Dispatch(w, rk, c, kind, local, move);
      && DispatchOk(w, s1, if c in Listening(w) then Walk(w.links, rk, Listening(w), c) else [], kind, local, move)
      && Listening(s1.w) == Listening(w)
    decreases rk[x], 0, |w.links[x].children| - i, 0
  {
    var c := w.links[x].children[i];
    ChildRank(w.links, rk, x, c);
    DispatchIsWalk(w, rk, c, kind, local, move);
    AnsweredListening(w, Dispatch(w, rk, c, kind, local, move).w, if c in Listening(w) then Walk(w.links, rk, Listening(w), c) else [], kind, local, move);
  }

  /** One child of `DispatchChildrenIsWalk`: the child's dispatch followed
      by the rest of the loop is the dispatch to the rest of the walk. */
  lemma DispatchChildrenStep(w: World, rk: map<Id, nat>, x: Id, i: nat, kind: InputKind, local: Id -> Vec, move: Id -> Vec)
    requires WF(w) && Valid(w.links, rk) && x in w.nodes && i < |w.links[x].children|
    requires var c := w.links[x].children[i];
      var s1 := Dispatch(w, rk, c, kind, local, move);
      && DispatchOk(w, s1, if c in Listening(w) then Walk(w.links, rk, Listening(w), c) else [], kind, local, move)
      && Listening(s1.w) == Listening(w)
      && DispatchOk(s1.w, DispatchChildren(s1.w, rk, x, i + 1, kind, local, move),
           WalkFrom(s1.w.links, rk, Listening(s1.w), x, i + 1), kind, local, move)
    ensures DispatchOk(w, DispatchChildren(w, rk, x, i, kind, local, move), WalkFrom(w.links, rk, Listening(w), x, i), kind, local, move)
  {
    var c := w.links[x].children[i];
    ChildRank(w.links, rk, x, c);
    var s1 := Dispatch(w, rk, c, kind, local, move);
    var s2 := DispatchChildren(s1.w, rk, x, i + 1, kind, local, move);
    var first := if c in Listening(w) then Walk(w.links, rk, Listening(w), c) else [];
    var rest := WalkFrom(w.links, rk, Listening(w), x, i + 1);
    assert forall y :: y in rest ==> y !in first by {
      WalkFromNoDup(w.links, rk, Listening(w), x, i);
      NoDupSplit(first, rest);
    }
    DispatchChildrenUnfold(w, rk, x, i, kind, local, move);
    assert WalkFrom(w.links, rk, Listening(w), x, i) == first + rest;
    DispatchCompose(w, s1, s2, first, rest, kind, local, move);
  }

  /** The hook calls of `Reactions(w, S, ...)` all belong to nodes of `S`. */
  lemma {:induction false} ReactionsNodes(w: World, S: seq<Id>, kind: InputKind, local: Id -> Vec, move: Id -> Vec)
    requires forall y :: y in S ==> y in w.nodes
    ensures forall e :: e in Reactions(w, S, kind, local, move) ==> e.node in S
  {
    if S != [] {
      ReactionsNodes(w, S[1..], kind, local, move);
      assert forall y :: y in S[1..] ==> y in S;
    }
  }

  /** After `setKeyMouseEventEnabled(false)` on a node `x` of `r`'s subtree,
      an input event dispatched from `r` leaves every node of `x`'s subtree
      as it was and calls no hook on any of them. */
  lemma DisableSilences(w: World, rk: map<Id, nat>, x: Id, r: Id, kind: InputKind, local: Id -> Vec, move: Id -> Vec)
    requires WF(w) && Valid(w.links, rk) && x in w.nodes && r in w.nodes && Anc(w.links, rk, x, r)
    ensures var w1 := SetNode(w, x, SetKeyMouseEventEnabled(w.nodes[x], false));
      var s := Dispatch(w1, rk, r, kind, local, move);
      && (forall e :: e in s.trace ==> e.node in w.nodes && !Anc(w.links, rk, e.node, x))
      && (forall y :: y in w.nodes && Anc(w.links, rk, y, x) ==> s.w.nodes[y] == w1.nodes[y])
  {
    var w1 := SetNode(w, x, SetKeyMouseEventEnabled(w.nodes[x], false));
    var s := Dispatch(w1, rk, r, kind, local, move);
    var L := Listening(w1);
    var S := if r in L then Walk(w1.links, rk, L, r) else [];
    DispatchIsWalk(w1, rk, r, kind, local, move);
    assert x !in L;
    assert forall y :: y in S ==> y in w.nodes && !Anc(w.links, rk, y, x) by {
      if r in L {
        WalkSound(w1.links, rk, L, r);
        forall y | y in S && Anc(w.links, rk, y, x)
          ensures false
        {
          WithinThrough(w.links, rk, L, y, x, r);
        }
      }
    }
    ReactionsNodes(w1, S, kind, local, move);
  }
}
