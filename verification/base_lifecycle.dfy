/** The life cycle of the current engine: lazy start, the mark phase of
    `destroy` with the process-wide `destroyedComponents` list, and the
    one-shot timers that `update` drains. */
module BaseLifecycle {
  import opened Common
  import opened Forest
  import opened BaseNode

  /** Everything the engine's operations read and write: the hierarchy
      links, the state of each node, and `destroyedComponents`, the list a
      manager later sweeps to drop the destroyed nodes. */
  datatype World = World(links: Links, nodes: map<Id, Node>, destroyedComponents: seq<Id>)

  /** Links and node states describe the same nodes. */
  predicate WF(w: World)
  {
    Closed(w.links) && w.links.Keys == w.nodes.Keys
  }

  /** An operation's outcome: the new world and the hooks it called. */
  datatype Step = Step(w: World, trace: seq<Event>)

  /** The nodes not yet destroyed. */
  function Undestroyed(w: World): set<Id>
  {
    set y | y in w.nodes && !w.nodes[y].destroyed
  }

  function SetNode(w: World, x: Id, n: Node): World
  {
    w.(nodes := w.nodes[x := n])
  }

  lemma SetNodeFacts(w: World, x: Id, n: Node, m: Node)
    requires x in w.nodes
    ensures SetNode(w, x, w.nodes[x]) == w
    ensures SetNode(SetNode(w, x, n), x, m) == SetNode(w, x, m)
  {
    assert w.nodes[x := w.nodes[x]] == w.nodes;
    assert w.nodes[x := n][x := m] == w.nodes[x := m];
  }

  lemma SubsetCard(a: set<Id>, b: set<Id>)
    requires a <= b
    ensures |a| <= |b|
  {
    assert b == a + (b - a);
  }

  // ---------------------------------------------------------------------
  // Start

  /** `start()`: clear the pending-start flag and call `onStart`. */
  function Start(w: World, x: Id): (s: Step)
    requires x in w.nodes
    ensures s.trace == [Event(x, OnStart)]
    ensures s.w == SetNode(w, x, w.nodes[x].(needStartExec := false))
  {
    Step(SetNode(w, x, w.nodes[x].(needStartExec := false)), [Event(x, OnStart)])
  }

  /** The `start()` prologue of `update` and `draw`: run only while the
      node is pending. */
  function StartIfPending(w: World, x: Id): (s: Step)
    requires x in w.nodes
    ensures (WF(w) ==> WF(s.w)) && s.w.links == w.links && s.w.nodes.Keys == w.nodes.Keys
  {
    if w.nodes[x].needStartExec then Start(w, x) else Step(w, [])
  }

  /** Starting only ever lowers the pending-start flag, and a started node
      is not started again by the update or draw prologue: the prologue of
      a pending node is `start()`, and the prologue after `start()` (or
      after the prologue itself) does nothing. */
  lemma StartOnce(w: World, x: Id)
    requires x in w.nodes
    ensures var s := Start(w, x); forall y :: y in w.nodes ==> (s.w.nodes[y].needStartExec ==> w.nodes[y].needStartExec)
    ensures !Start(w, x).w.nodes[x].needStartExec
    ensures w.nodes[x].needStartExec ==> StartIfPending(w, x) == Start(w, x)
    ensures StartIfPending(Start(w, x).w, x) == Step(Start(w, x).w, [])
    ensures var p := StartIfPending(w, x); StartIfPending(p.w, x) == Step(p.w, [])
  {
  }

  // ---------------------------------------------------------------------
  // Destroy

  /** What `destroy()` does to a live node before visiting the children:
      flag it and append it to `destroyedComponents`. */
  function Flag(w: World, x: Id): World
    requires x in w.nodes
  {
    w.(nodes := w.nodes[x := w.nodes[x].(destroyed := true)],
       destroyedComponents := w.destroyedComponents + [x])
  }

  /** `clearTimerFunctions()` on node `x`. */
  function ClearAt(w: World, x: Id): World
    requires x in w.nodes
  {
    w.(nodes := w.nodes[x := ClearTimerFunctions(w.nodes[x])])
  }

  lemma FlagShrinks(w: World, x: Id)
    requires x in w.nodes && !w.nodes[x].destroyed
    ensures Undestroyed(Flag(w, x)) == Undestroyed(w) - {x}
    ensures |Undestroyed(Flag(w, x))| < |Undestroyed(w)|
  {
    assert x in Undestroyed(w);
  }

  /** `r` differs from `w` at most in destroyed flags, timers and the
      `destroyedComponents` list. */
  predicate OnlyLifecycle(w: World, r: World)
  {
    && r.links == w.links && r.nodes.Keys == w.nodes.Keys
    && (forall y :: y in w.nodes ==>
          r.nodes[y] == w.nodes[y].(destroyed := r.nodes[y].destroyed, timers := r.nodes[y].timers))
  }

  /** A world `r` reached from `w` by destroying: same nodes and links,
      destroyed nodes untouched, every node keeping its number of timers. */
  predicate Later(w: World, r: World)
  {
    && OnlyLifecycle(w, r)
    && (forall y :: y in w.nodes && w.nodes[y].destroyed ==> r.nodes[y] == w.nodes[y])
    && (forall y :: y in w.nodes ==> |r.nodes[y].timers| == |w.nodes[y].timers|)
  }

  lemma LaterSteps(w: World, x: Id, a: World)
    requires x in w.nodes && !w.nodes[x].destroyed
    requires Later(Flag(w, x), a)
    ensures Later(w, a)
    ensures x in a.nodes && a.nodes[x] == w.nodes[x].(destroyed := true)
    ensures Later(w, ClearAt(a, x)) && ClearAt(a, x).nodes[x] == Destroyed(w.nodes[x])
  {
    var f := Flag(w, x);
    forall y | y in w.nodes
      ensures a.nodes[y] == w.nodes[y].(destroyed := a.nodes[y].destroyed, timers := a.nodes[y].timers)
      ensures |a.nodes[y].timers| == |w.nodes[y].timers|
      ensures w.nodes[y].destroyed ==> a.nodes[y] == w.nodes[y]
    {
      assert f.nodes[y] == if y == x then w.nodes[x].(destroyed := true) else w.nodes[y];
    }
    LaterClear(w, x, a);
  }

  /** Canceling the timers of the node just destroyed stays a `Later`
      world. */
  lemma LaterClear(w: World, x: Id, a: World)
    requires Later(w, a) && x in w.nodes && !w.nodes[x].destroyed && a.nodes[x] == w.nodes[x].(destroyed := true)
    ensures Later(w, ClearAt(a, x)) && ClearAt(a, x).nodes[x] == Destroyed(w.nodes[x])
  {
    var c := ClearAt(a, x);
    forall y | y in w.nodes
      ensures c.nodes[y] == w.nodes[y].(destroyed := c.nodes[y].destroyed, timers := c.nodes[y].timers)
      ensures |c.nodes[y].timers| == |w.nodes[y].timers|
      ensures w.nodes[y].destroyed ==> c.nodes[y] == w.nodes[y]
    {
    }
  }

  lemma LaterShrinks(w: World, r: World)
    requires Later(w, r)
    ensures Undestroyed(r) <= Undestroyed(w)
    ensures |Undestroyed(r)| <= |Undestroyed(w)|
  {
    forall y | y in Undestroyed(r) ensures y in Undestroyed(w) {
      assert y in w.nodes && !r.nodes[y].destroyed;
    }
    SubsetCard(Undestroyed(r), Undestroyed(w));
  }

  /** `destroy()`: on a node not yet destroyed, flag it, append it to
      `destroyedComponents`, destroy each child in order, and cancel its
      timers. On a destroyed node it does nothing. */
  function Destroy(w: World, x: Id): (r: World)
    requires WF(w) && x in w.nodes
    ensures WF(r) && Later(w, r)
    ensures r.nodes[x] == Destroyed(w.nodes[x]) || w.nodes[x].destroyed
    ensures r.nodes[x].destroyed
    decreases |Undestroyed(w)|, 0, 0
  {
    if w.nodes[x].destroyed then w
    else
      var w1 := Flag(w, x);
      FlagShrinks(w, x);
      var w2 := DestroyChildren(w1, x, 0);
      LaterSteps(w, x, w2);
      ClearAt(w2, x)
  }

  /** The loop of `destroy()` over the children, from position `i` on. */
  function DestroyChildren(w: World, x: Id, i: nat): (r: World)
    requires WF(w) && x in w.nodes && i <= |w.links[x].children|
    ensures WF(r) && Later(w, r)
    decreases |Undestroyed(w)|, 1, |w.links[x].children| - i
  {
    if i == |w.links[x].children| then w
    else
      var w1 := Destroy(w, w.links[x].children[i]);
      LaterShrinks(w, w1);
      DestroyChildren(w1, x, i + 1)
  }

  /** The reference meaning of a destroy: every node of `s` destroyed with
      its timers canceled, and `s` appended to `destroyedComponents`. */
  ghost function MarkAll(w: World, s: seq<Id>): World
  {
    w.(nodes := map y | y in w.nodes :: if y in s then Destroyed(w.nodes[y]) else w.nodes[y],
       destroyedComponents := w.destroyedComponents + s)
  }

  lemma MarkAllNothing(w: World)
    ensures MarkAll(w, []) == w
  {
    assert MarkAll(w, []).nodes == w.nodes;
  }

  lemma MarkAllTwice(w: World, a: seq<Id>, b: seq<Id>)
    ensures MarkAll(MarkAll(w, a), b) == MarkAll(w, a + b)
  {
    forall y | y in w.nodes
      ensures MarkAll(MarkAll(w, a), b).nodes[y] == MarkAll(w, a + b).nodes[y]
    {
      DestroyedIdempotent(w.nodes[y]);
    }
    assert (w.destroyedComponents + a) + b == w.destroyedComponents + (a + b);
  }

  lemma UndestroyedMarkAll(w: World, a: seq<Id>)
    ensures Undestroyed(MarkAll(w, a)) == Undestroyed(w) - set y | y in a
  {
    var m := MarkAll(w, a);
    forall y | y in m.nodes
      ensures !m.nodes[y].destroyed <==> !w.nodes[y].destroyed && y !in a
    {
    }
  }

  /** Flagging first, marking the rest, then canceling the first node's
      timers is marking all of them. */
  lemma FlagMarkClear(w: World, x: Id, s: seq<Id>)
    requires x in w.nodes && x !in s
    ensures ClearAt(MarkAll(Flag(w, x), s), x) == MarkAll(w, [x] + s)
  {
    var r := ClearAt(MarkAll(Flag(w, x), s), x);
    var m := MarkAll(w, [x] + s);
    forall y | y in w.nodes ensures r.nodes[y] == m.nodes[y] {
    }
    assert r.nodes == m.nodes;
  }

  /** `destroy()` on a live node destroys exactly the nodes a pre-order walk
      from it reaches through nodes not yet destroyed, and queues them in
      that pre-order. A subtree already destroyed is not entered again,
      so live nodes below it are left alone. */
  lemma {:induction false} DestroyIsMarkWalk(w: World, rk: map<Id, nat>, x: Id)
    requires WF(w) && Valid(w.links, rk) && x in w.nodes && !w.nodes[x].destroyed
    ensures Destroy(w, x) == MarkAll(w, Walk(w.links, rk, Undestroyed(w), x))
    decreases rk[x], 1
  {
    var t := w.links;
    var g := Undestroyed(w);
    var w1 := Flag(w, x);
    FlagShrinks(w, x);
    DestroyChildrenIsMarkWalkFrom(w1, rk, x, 0);
    forall j, y | 0 <= j < |t[x].children| && y in t && Anc(t, rk, y, t[x].children[j])
      ensures y in Undestroyed(w1) <==> y in g
    {
      ChildRank(t, rk, x, t[x].children[j]);
      AncRank(t, rk, y, t[x].children[j]);
    }
    WalkFromCongruent(t, rk, Undestroyed(w1), g, x, 0);
    RootNotBelow(t, rk, g, x);
    FlagMarkClear(w, x, WalkFrom(t, rk, g, x, 0));
  }

  lemma {:induction false} DestroyChildrenIsMarkWalkFrom(w: World, rk: map<Id, nat>, x: Id, i: nat)
    requires WF(w) && Valid(w.links, rk) && x in w.nodes && i <= |w.links[x].children|
    ensures DestroyChildren(w, x, i) == MarkAll(w, WalkFrom(w.links, rk, Undestroyed(w), x, i))
    decreases rk[x], 0, |w.links[x].children| - i
  {
    var t := w.links;
    var g := Undestroyed(w);
    if i == |t[x].children| {
      MarkAllNothing(w);
    } else {
      var c := t[x].children[i];
      ChildRank(t, rk, x, c);
      if c in g {
        DestroyIsMarkWalk(w, rk, c);
        DestroyNextChild(w, rk, x, i);
      } else {
        DestroyChildrenIsMarkWalkFrom(w, rk, x, i + 1);
        SkipDestroyedChild(w, rk, x, i);
      }
    }
  }

  /** One step of the children loop, for a child already destroyed. */
  lemma SkipDestroyedChild(w: World, rk: map<Id, nat>, x: Id, i: nat)
    requires WF(w) && Valid(w.links, rk) && x in w.nodes && i < |w.links[x].children|
    requires w.links[x].children[i] in w.links && w.nodes[w.links[x].children[i]].destroyed
    ensures DestroyChildren(w, x, i) == DestroyChildren(w, x, i + 1)
    ensures WalkFrom(w.links, rk, Undestroyed(w), x, i) == WalkFrom(w.links, rk, Undestroyed(w), x, i + 1)
  {
  }

  /** One step of the children loop, for a live child. */
  lemma {:induction false} DestroyNextChild(w: World, rk: map<Id, nat>, x: Id, i: nat)
    requires WF(w) && Valid(w.links, rk) && x in w.nodes && i < |w.links[x].children|
    requires w.links[x].children[i] in w.links && !w.nodes[w.links[x].children[i]].destroyed
    requires Destroy(w, w.links[x].children[i]) == MarkAll(w, Walk(w.links, rk, Undestroyed(w), w.links[x].children[i]))
    ensures DestroyChildren(w, x, i) == MarkAll(w, WalkFrom(w.links, rk, Undestroyed(w), x, i))
    decreases rk[x], 0, |w.links[x].children| - i, 0
  {
    var t := w.links;
    var g := Undestroyed(w);
    var c := t[x].children[i];
    ChildRank(t, rk, x, c);
    var a := Walk(t, rk, g, c);
    var w1 := MarkAll(w, a);
    DestroyChildrenIsMarkWalkFrom(w1, rk, x, i + 1);
    UndestroyedMarkAll(w, a);
    forall j, y | i + 1 <= j < |t[x].children| && y in t && Anc(t, rk, y, t[x].children[j])
      ensures y in Undestroyed(w1) <==> y in g
    {
      if y in a {
        SiblingWalksDisjoint(t, rk, g, x, i, j, y);
      }
    }
    WalkFromCongruent(t, rk, Undestroyed(w1), g, x, i + 1);
    MarkAllTwice(w, a, WalkFrom(t, rk, g, x, i + 1));
  }

  /** `destroy()` on a live node, spelled out: the nodes within `x` through
      live nodes become destroyed with their timers canceled, every other
      node is untouched, and the walk order is what `destroyedComponents`
      gains, each node once. */
  lemma DestroyEffects(w: World, rk: map<Id, nat>, x: Id)
    requires WF(w) && Valid(w.links, rk) && x in w.nodes && !w.nodes[x].destroyed
    ensures forall y :: y in w.nodes ==>
      Destroy(w, x).nodes[y] == if Within(w.links, rk, Undestroyed(w), y, x) then Destroyed(w.nodes[y]) else w.nodes[y]
    ensures Destroy(w, x).destroyedComponents == w.destroyedComponents + Walk(w.links, rk, Undestroyed(w), x)
    ensures NoDup(Walk(w.links, rk, Undestroyed(w), x))
    ensures forall y :: y in Walk(w.links, rk, Undestroyed(w), x) ==> y in Undestroyed(w)
  {
    var g := Undestroyed(w);
    DestroyIsMarkWalk(w, rk, x);
    WalkComplete(w.links, rk, g, x);
    WalkSound(w.links, rk, g, x);
    WalkNoDup(w.links, rk, g, x);
  }

  /** On a subtree none of whose nodes is destroyed yet, `destroy()`
      destroys the whole subtree and nothing else. */
  lemma DestroyLiveSubtree(w: World, rk: map<Id, nat>, x: Id)
    requires WF(w) && Valid(w.links, rk) && x in w.nodes
    requires forall z :: z in w.links && Anc(w.links, rk, z, x) ==> !w.nodes[z].destroyed
    ensures forall y :: y in w.nodes ==>
      Destroy(w, x).nodes[y] == if Anc(w.links, rk, y, x) then Destroyed(w.nodes[y]) else w.nodes[y]
  {
    var t := w.links;
    var g := Undestroyed(w);
    assert Anc(t, rk, x, x);
    DestroyEffects(w, rk, x);
    forall y | y in w.nodes ensures Within(t, rk, g, y, x) <==> Anc(t, rk, y, x) {
      if Within(t, rk, g, y, x) {
        WithinAnc(t, rk, g, y, x);
      }
      if Anc(t, rk, y, x) {
        AncWithin(t, rk, g, y, x);
      }
    }
  }

  /** Destroying twice is destroying once. */
  lemma DestroyIdempotent(w: World, x: Id)
    requires WF(w) && x in w.nodes
    ensures Destroy(Destroy(w, x), x) == Destroy(w, x)
  {
  }

  /** `destroyedComponents` lists exactly the destroyed nodes, each once. */
  predicate QueueInv(w: World)
  {
    && NoDup(w.destroyedComponents)
    && (forall y :: y in w.destroyedComponents ==> y in w.nodes && w.nodes[y].destroyed)
    && (forall y :: y in w.nodes && w.nodes[y].destroyed ==> y in w.destroyedComponents)
  }

  /** Marking distinct live nodes keeps the invariant. */
  lemma MarkAllKeepsQueueInv(w: World, s: seq<Id>)
    requires QueueInv(w) && NoDup(s) && forall y :: y in s ==> y in Undestroyed(w)
    ensures QueueInv(MarkAll(w, s))
  {
    forall y | y in w.destroyedComponents ensures y !in s {
      assert y !in Undestroyed(w);
    }
    NoDupAppend(w.destroyedComponents, s);
  }

  lemma DestroyKeepsQueueInv(w: World, rk: map<Id, nat>, x: Id)
    requires WF(w) && Valid(w.links, rk) && x in w.nodes && QueueInv(w)
    ensures QueueInv(Destroy(w, x))
  {
    if !w.nodes[x].destroyed {
      DestroyIsMarkWalk(w, rk, x);
      WalkNoDup(w.links, rk, Undestroyed(w), x);
      WalkGated(w.links, rk, Undestroyed(w), x);
      MarkAllKeepsQueueInv(w, Walk(w.links, rk, Undestroyed(w), x));
    }
  }

  // ---------------------------------------------------------------------
  // Timers

  /** `destroy(delaySec)`: on a live node, schedule a `destroy()` after the
      delay; on a destroyed node, do nothing. */
  function DestroyAfter(w: World, x: Id, delay: real, now: real): (r: World)
    requires x in w.nodes
    ensures w.nodes[x].destroyed ==> r == w
    ensures !w.nodes[x].destroyed ==> r == SetNode(w, x, AddTimerFunction(w.nodes[x], DestroySelf, delay, now))
  {
    if w.nodes[x].destroyed then w
    else SetNode(w, x, AddTimerFunction(w.nodes[x], DestroySelf, delay, now))
  }

  /** `timerFunctions.erase(begin() + i)`. */
  function EraseTimer(w: World, x: Id, i: nat): World
    requires x in w.nodes && i < |w.nodes[x].timers|
  {
    var ts := w.nodes[x].timers;
    SetNode(w, x, w.nodes[x].(timers := ts[..i] + ts[i + 1..]))
  }

  /** Erasing a timer keeps the world well formed and the node's other state. */
  lemma ErasedNode(w: World, x: Id, i: nat)
    requires WF(w) && x in w.nodes && i < |w.nodes[x].timers|
    ensures var w1 := EraseTimer(w, x, i);
      WF(w1) && x in w1.nodes && w1.nodes[x].destroyed == w.nodes[x].destroyed
  {
  }

  lemma OnlyLifecycleTrans(a: World, b: World, c: World)
    requires OnlyLifecycle(a, b) && OnlyLifecycle(b, c)
    ensures OnlyLifecycle(a, c)
  {
  }

  /** Call a due timer's function on node `x`. */
  function Fire(w: World, x: Id, a: TimerAction): (s: Step)
    requires WF(w) && x in w.nodes
    ensures WF(s.w) && Later(w, s.w)
  {
    match a
    case DestroySelf => Step(Destroy(w, x), [])
    case Callback(tag) => Step(w, [Event(x, TimerFired(tag))])
  }

  /** The timer loop of `update()` on node `x`, from position `i` on, at
      time `now`: a canceled timer is erased unrun; a due one is run, then
      erased (both erasures keep `i` where it is); any other is skipped. */
  function DrainFrom(w: World, x: Id, i: nat, now: real): (s: Step)
    requires WF(w) && x in w.nodes && i <= |w.nodes[x].timers|
    ensures WF(s.w) && s.w.links == w.links && s.w.nodes.Keys == w.nodes.Keys
    decreases |w.nodes[x].timers| - i
  {
    var ts := w.nodes[x].timers;
    if i == |ts| then Step(w, [])
    else if ts[i].canceled then DrainFrom(EraseTimer(w, x, i), x, i, now)
    else if ts[i].execTime <= now then
      var f := Fire(w, x, ts[i].action);
      var s := DrainFrom(EraseTimer(f.w, x, i), x, i, now);
      Step(s.w, f.trace + s.trace)
    else DrainFrom(w, x, i + 1, now)
  }

  /** The whole timer loop. */
  function Drain(w: World, x: Id, now: real): Step
    requires WF(w) && x in w.nodes
  {
    DrainFrom(w, x, 0, now)
  }

  /** The timer loop changes nothing but destroyed flags, timers and
      `destroyedComponents`, and records only timer callbacks of `x`. */
  lemma {:induction false} DrainFrame(w: World, x: Id, i: nat, now: real)
    requires WF(w) && x in w.nodes && i <= |w.nodes[x].timers|
    ensures OnlyLifecycle(w, DrainFrom(w, x, i, now).w)
    ensures forall e :: e in DrainFrom(w, x, i, now).trace ==> e == Event(x, e.hook) && e.hook.TimerFired?
    decreases |w.nodes[x].timers| - i
  {
    var ts := w.nodes[x].timers;
    if i < |ts| {
      if ts[i].canceled {
        var w1 := EraseTimer(w, x, i);
        EraseFrame(w, x, i);
        DrainFrame(w1, x, i, now);
        assert DrainFrom(w, x, i, now) == DrainFrom(w1, x, i, now);
        OnlyLifecycleTrans(w, w1, DrainFrom(w1, x, i, now).w);
      } else if ts[i].execTime <= now {
        DueFrame(w, x, i, now);
      } else {
        DrainFrame(w, x, i + 1, now);
        assert DrainFrom(w, x, i, now) == DrainFrom(w, x, i + 1, now);
      }
    }
  }

  lemma {:induction false} DueFrame(w: World, x: Id, i: nat, now: real)
    requires WF(w) && x in w.nodes && i < |w.nodes[x].timers|
    requires !w.nodes[x].timers[i].canceled && w.nodes[x].timers[i].execTime <= now
    ensures OnlyLifecycle(w, DrainFrom(w, x, i, now).w)
    ensures forall e :: e in DrainFrom(w, x, i, now).trace ==> e == Event(x, e.hook) && e.hook.TimerFired?
    decreases |w.nodes[x].timers| - i, 0
  {
    var ts := w.nodes[x].timers;
    var f := Fire(w, x, ts[i].action);
    var w1 := EraseTimer(f.w, x, i);
    var s := DrainFrom(w1, x, i, now);
    assert DrainFrom(w, x, i, now) == Step(s.w, f.trace + s.trace);
    EraseFrame(f.w, x, i);
    DrainFrame(w1, x, i, now);
    OnlyLifecycleTrans(w, f.w, w1);
    OnlyLifecycleTrans(w, w1, s.w);
    assert forall e :: e in f.trace ==> e == Event(x, e.hook) && e.hook.TimerFired?;
  }

  lemma EraseFrame(w: World, x: Id, i: nat)
    requires x in w.nodes && i < |w.nodes[x].timers|
    ensures OnlyLifecycle(w, EraseTimer(w, x, i))
  {
  }

  /** `r` agrees with `w` on every node outside `x`'s subtree. */
  ghost predicate KeepsOutside(w: World, r: World, rk: map<Id, nat>, x: Id)
    requires WF(w) && Ranked(w.links, rk)
  {
    forall y :: y in w.nodes && !Anc(w.links, rk, y, x) ==> y in r.nodes && r.nodes[y] == w.nodes[y]
  }

  lemma KeepsOutsideTrans(a: World, b: World, c: World, rk: map<Id, nat>, x: Id)
    requires WF(a) && WF(b) && Ranked(a.links, rk) && b.links == a.links
    requires KeepsOutside(a, b, rk, x) && KeepsOutside(b, c, rk, x)
    ensures KeepsOutside(a, c, rk, x)
  {
  }

  /** `destroy()` on `x` changes no node outside `x`'s subtree. */
  lemma DestroyOutside(w: World, rk: map<Id, nat>, x: Id)
    requires WF(w) && Valid(w.links, rk) && x in w.nodes
    ensures KeepsOutside(w, Destroy(w, x), rk, x)
  {
    if !w.nodes[x].destroyed {
      DestroyEffects(w, rk, x);
      forall y | y in w.nodes && !Anc(w.links, rk, y, x)
        ensures Destroy(w, x).nodes[y] == w.nodes[y]
      {
        if Within(w.links, rk, Undestroyed(w), y, x) {
          WithinAnc(w.links, rk, Undestroyed(w), y, x);
        }
      }
    }
  }

  /** The timer loop of `x` changes no node outside `x`'s subtree: erasing
      a timer touches `x` alone, and a self-destroy only `x`'s subtree. */
  lemma {:induction false} DrainOutside(w: World, rk: map<Id, nat>, x: Id, i: nat, now: real)
    requires WF(w) && Valid(w.links, rk) && x in w.nodes && i <= |w.nodes[x].timers|
    ensures KeepsOutside(w, DrainFrom(w, x, i, now).w, rk, x)
    decreases |w.nodes[x].timers| - i
  {
    var ts := w.nodes[x].timers;
    if i < |ts| {
      if ts[i].canceled {
        var w1 := EraseTimer(w, x, i);
        DrainOutside(w1, rk, x, i, now);
        assert DrainFrom(w, x, i, now) == DrainFrom(w1, x, i, now);
        KeepsOutsideTrans(w, w1, DrainFrom(w1, x, i, now).w, rk, x);
      } else if ts[i].execTime <= now {
        DueOutside(w, rk, x, i, now);
      } else {
        DrainOutside(w, rk, x, i + 1, now);
        assert DrainFrom(w, x, i, now) == DrainFrom(w, x, i + 1, now);
      }
    }
  }

  lemma {:induction false} DueOutside(w: World, rk: map<Id, nat>, x: Id, i: nat, now: real)
    requires WF(w) && Valid(w.links, rk) && x in w.nodes && i < |w.nodes[x].timers|
    requires !w.nodes[x].timers[i].canceled && w.nodes[x].timers[i].execTime <= now
    ensures KeepsOutside(w, DrainFrom(w, x, i, now).w, rk, x)
    decreases |w.nodes[x].timers| - i, 0
  {
    var ts := w.nodes[x].timers;
    var f := Fire(w, x, ts[i].action);
    var w1 := EraseTimer(f.w, x, i);
    var s := DrainFrom(w1, x, i, now);
    assert DrainFrom(w, x, i, now) == Step(s.w, f.trace + s.trace);
    assert KeepsOutside(w, f.w, rk, x) by {
      if ts[i].action == DestroySelf {
        DestroyOutside(w, rk, x);
      }
    }
    DrainOutside(w1, rk, x, i, now);
    KeepsOutsideTrans(w, f.w, w1, rk, x);
    KeepsOutsideTrans(w, w1, s.w, rk, x);
  }

  /** `v` has the links and nodes of `w` and agrees with it on every node
      of `x`'s subtree. */
  ghost predicate AgreeBelow(w: World, v: World, rk: map<Id, nat>, x: Id)
    requires WF(w) && Ranked(w.links, rk)
  {
    && v.links == w.links && v.nodes.Keys == w.nodes.Keys
    && forall y :: y in w.nodes && Anc(w.links, rk, y, x) ==> v.nodes[y] == w.nodes[y]
  }

  /** Agreement on a subtree holds on the subtree of each child. */
  lemma AgreeChild(w: World, v: World, rk: map<Id, nat>, x: Id, c: Id)
    requires WF(w) && Valid(w.links, rk) && x in w.nodes && c in w.links[x].children
    requires AgreeBelow(w, v, rk, x)
    ensures AgreeBelow(w, v, rk, c)
  {
    forall y | y in w.nodes && Anc(w.links, rk, y, c)
      ensures Anc(w.links, rk, y, x)
    {
      AncStep(w.links, rk, y, c, x);
    }
  }

  /** Two worlds that agree on `x`'s subtree, each changed only inside the
      subtree of the child `c`, into two worlds that agree on `c`'s
      subtree, still agree on `x`'s subtree. */
  lemma AgreeWiden(w: World, v: World, a: World, b: World, rk: map<Id, nat>, x: Id, c: Id)
    requires WF(w) && WF(v) && Valid(w.links, rk) && x in w.nodes && c in w.links[x].children
    requires AgreeBelow(w, v, rk, x) && KeepsOutside(w, a, rk, c) && KeepsOutside(v, b, rk, c)
    requires WF(a) && a.links == w.links && a.nodes.Keys == w.nodes.Keys && AgreeBelow(a, b, rk, c)
    ensures AgreeBelow(a, b, rk, x)
  {
  }

  /** `destroy()` on `x` reads only `x`'s subtree: from two worlds that
      agree there it leaves two worlds that still agree there. */
  lemma DestroyCongruent(w: World, v: World, rk: map<Id, nat>, x: Id)
    requires WF(w) && WF(v) && Valid(w.links, rk) && x in w.nodes && AgreeBelow(w, v, rk, x)
    ensures AgreeBelow(Destroy(w, x), Destroy(v, x), rk, x)
  {
    var t := w.links;
    assert Anc(t, rk, x, x);
    if !w.nodes[x].destroyed {
      DestroyEffects(w, rk, x);
      DestroyEffects(v, rk, x);
      forall y | y in w.nodes && Anc(t, rk, y, x)
        ensures Within(t, rk, Undestroyed(w), y, x) == Within(t, rk, Undestroyed(v), y, x)
      {
        WithinCongruent(t, rk, Undestroyed(w), Undestroyed(v), y, x);
      }
    }
  }

  /** The timer loop of `x` reads only `x`'s subtree: from two worlds that
      agree there it records the same callbacks and leaves two worlds that
      still agree there. */
  lemma {:induction false} DrainCongruent(w: World, v: World, rk: map<Id, nat>, x: Id, i: nat, now: real)
    requires WF(w) && WF(v) && Valid(w.links, rk) && x in w.nodes && AgreeBelow(w, v, rk, x)
    requires i <= |w.nodes[x].timers|
    ensures DrainFrom(w, x, i, now).trace == DrainFrom(v, x, i, now).trace
    ensures AgreeBelow(DrainFrom(w, x, i, now).w, DrainFrom(v, x, i, now).w, rk, x)
    decreases |w.nodes[x].timers| - i, 1
  {
    assert Anc(w.links, rk, x, x);
    var ts := w.nodes[x].timers;
    if i < |ts| {
      if ts[i].canceled {
        EraseCongruent(w, v, rk, x, i);
        DrainCongruent(EraseTimer(w, x, i), EraseTimer(v, x, i), rk, x, i, now);
      } else if ts[i].execTime <= now {
        DueCongruent(w, v, rk, x, i, now);
      } else {
        DrainCongruent(w, v, rk, x, i + 1, now);
      }
    }
  }

  lemma {:induction false} DueCongruent(w: World, v: World, rk: map<Id, nat>, x: Id, i: nat, now: real)
    requires WF(w) && WF(v) && Valid(w.links, rk) && x in w.nodes && AgreeBelow(w, v, rk, x)
    requires i < |w.nodes[x].timers| && !w.nodes[x].timers[i].canceled && w.nodes[x].timers[i].execTime <= now
    ensures DrainFrom(w, x, i, now).trace == DrainFrom(v, x, i, now).trace
    ensures AgreeBelow(DrainFrom(w, x, i, now).w, DrainFrom(v, x, i, now).w, rk, x)
    decreases |w.nodes[x].timers| - i, 0
  {
    assert Anc(w.links, rk, x, x);
    var ts := w.nodes[x].timers;
    var f := Fire(w, x, ts[i].action);
    var g := Fire(v, x, ts[i].action);
    FireCongruent(w, v, rk, x, ts[i].action);
    EraseCongruent(f.w, g.w, rk, x, i);
    DrainCongruent(EraseTimer(f.w, x, i), EraseTimer(g.w, x, i), rk, x, i, now);
    assert DrainFrom(w, x, i, now) == Step(DrainFrom(EraseTimer(f.w, x, i), x, i, now).w, f.trace + DrainFrom(EraseTimer(f.w, x, i), x, i, now).trace);
    assert DrainFrom(v, x, i, now) == Step(DrainFrom(EraseTimer(g.w, x, i), x, i, now).w, g.trace + DrainFrom(EraseTimer(g.w, x, i), x, i, now).trace);
  }

  lemma FireCongruent(w: World, v: World, rk: map<Id, nat>, x: Id, a: TimerAction)
    requires WF(w) && WF(v) && Valid(w.links, rk) && x in w.nodes && AgreeBelow(w, v, rk, x)
    ensures Fire(w, x, a).trace == Fire(v, x, a).trace
    ensures AgreeBelow(Fire(w, x, a).w, Fire(v, x, a).w, rk, x)
  {
    if a == DestroySelf {
      DestroyCongruent(w, v, rk, x);
    }
  }

  lemma EraseCongruent(w: World, v: World, rk: map<Id, nat>, x: Id, i: nat)
    requires WF(w) && WF(v) && Ranked(w.links, rk) && x in w.nodes && AgreeBelow(w, v, rk, x)
    requires i < |w.nodes[x].timers|
    ensures Anc(w.links, rk, x, x) && v.nodes[x] == w.nodes[x]
    ensures AgreeBelow(EraseTimer(w, x, i), EraseTimer(v, x, i), rk, x)
  {
    assert Anc(w.links, rk, x, x);
  }

  /** The timers still waiting at `now`: not canceled and not yet due. */
  function Waiting(ts: seq<Timer>, now: real): seq<Timer>
  {
    if ts == [] then []
    else (if !ts[0].canceled && now < ts[0].execTime then [ts[0]] else []) + Waiting(ts[1..], now)
  }

  /** The actions of the timers due at `now`, in queue order. */
  function DueActions(ts: seq<Timer>, now: real): seq<TimerAction>
  {
    if ts == [] then []
    else (if !ts[0].canceled && ts[0].execTime <= now then [ts[0].action] else []) + DueActions(ts[1..], now)
  }

  /** The hook calls that running `acts` on node `x` records: one per
      callback; a self-destroy records none. */
  function Calls(x: Id, acts: seq<TimerAction>): seq<Event>
  {
    if acts == [] then []
    else (match acts[0] case DestroySelf => [] case Callback(tag) => [Event(x, TimerFired(tag))]) + Calls(x, acts[1..])
  }

  lemma TimerSplit(ts: seq<Timer>, i: nat, now: real)
    requires i < |ts|
    ensures Waiting(ts[i..], now) == (if !ts[i].canceled && now < ts[i].execTime then [ts[i]] else []) + Waiting(ts[i + 1..], now)
    ensures DueActions(ts[i..], now) == (if !ts[i].canceled && ts[i].execTime <= now then [ts[i].action] else []) + DueActions(ts[i + 1..], now)
  {
    assert ts[i..][1..] == ts[i + 1..];
  }

  /** The outcome the loop should have from position `i` when no live
      self-destroy is due: the first `i` timers and those still waiting
      remain, and every due callback is recorded, in queue order. */
  ghost predicate PlainOutcome(w: World, x: Id, i: nat, now: real)
    requires WF(w) && x in w.nodes && i <= |w.nodes[x].timers|
  {
    var ts := w.nodes[x].timers;
    DrainFrom(w, x, i, now) ==
      Step(SetNode(w, x, w.nodes[x].(timers := ts[..i] + Waiting(ts[i..], now))), Calls(x, DueActions(ts[i..], now)))
  }

  /** With no self-destroy of a live node among the due timers, the loop
      leaves exactly the timers still waiting, in order, and runs every due
      callback once, in queue order; nothing else in the world changes. */
  lemma {:induction false} DrainPlain(w: World, x: Id, i: nat, now: real)
    requires WF(w) && x in w.nodes && i <= |w.nodes[x].timers|
    requires w.nodes[x].destroyed || DestroySelf !in DueActions(w.nodes[x].timers[i..], now)
    ensures PlainOutcome(w, x, i, now)
    decreases |w.nodes[x].timers| - i
  {
    var ts := w.nodes[x].timers;
    if i == |ts| {
      PlainEnd(w, x, now);
    } else {
      DueTail(w, x, i, now);
      if ts[i].canceled || ts[i].execTime <= now {
        DrainPlain(EraseTimer(w, x, i), x, i, now);
        PlainErase(w, x, i, now);
      } else {
        DrainPlain(w, x, i + 1, now);
        PlainSkip(w, x, i, now);
      }
    }
  }

  lemma DueTail(w: World, x: Id, i: nat, now: real)
    requires x in w.nodes && i < |w.nodes[x].timers|
    ensures var ts := w.nodes[x].timers;
      && (forall a :: a in DueActions(ts[i + 1..], now) ==> a in DueActions(ts[i..], now))
      && (!ts[i].canceled && ts[i].execTime <= now ==> ts[i].action in DueActions(ts[i..], now))
      && EraseTimer(w, x, i).nodes[x].timers[i..] == ts[i + 1..]
  {
    var ts := w.nodes[x].timers;
    TimerSplit(ts, i, now);
    EraseView(ts, i);
  }

  lemma PlainEnd(w: World, x: Id, now: real)
    requires WF(w) && x in w.nodes
    ensures PlainOutcome(w, x, |w.nodes[x].timers|, now)
  {
    var ts := w.nodes[x].timers;
    var i := |ts|;
    assert ts[..i] == ts && ts[i..] == [];
    assert ts[..i] + Waiting(ts[i..], now) == ts;
    assert Calls(x, DueActions(ts[i..], now)) == [];
    assert w.nodes[x].(timers := ts) == w.nodes[x];
    SetNodeFacts(w, x, w.nodes[x], w.nodes[x]);
  }

  /** A timer that is canceled, or due without a live self-destroy, is
      erased; the loop then goes on from the same position. */
  lemma PlainErase(w: World, x: Id, i: nat, now: real)
    requires WF(w) && x in w.nodes && i < |w.nodes[x].timers|
    requires var tm := w.nodes[x].timers[i];
      tm.canceled || (tm.execTime <= now && (w.nodes[x].destroyed || tm.action != DestroySelf))
    requires PlainOutcome(EraseTimer(w, x, i), x, i, now)
    ensures PlainOutcome(w, x, i, now)
  {
    var ts := w.nodes[x].timers;
    var rest := DrainFrom(EraseTimer(w, x, i), x, i, now);
    var f := Fire(w, x, ts[i].action);
    assert DrainFrom(w, x, i, now) == Step(rest.w, (if ts[i].canceled then [] else f.trace) + rest.trace) by {
      if !ts[i].canceled {
        assert f.w == w;
      }
    }
    EraseRest(w, x, i, now);
    assert (if ts[i].canceled then [] else f.trace) + rest.trace == Calls(x, DueActions(ts[i..], now)) by {
      TimerSplit(ts, i, now);
      if ts[i].canceled {
        assert DueActions(ts[i..], now) == DueActions(ts[i + 1..], now);
      } else {
        assert DueActions(ts[i..], now) == [ts[i].action] + DueActions(ts[i + 1..], now);
        CallsCons(x, ts[i].action, DueActions(ts[i + 1..], now));
        assert Calls(x, [ts[i].action]) == f.trace;
      }
    }
  }

  /** What is left after erasing a timer that is not waiting. */
  lemma EraseRest(w: World, x: Id, i: nat, now: real)
    requires WF(w) && x in w.nodes && i < |w.nodes[x].timers|
    requires w.nodes[x].timers[i].canceled || w.nodes[x].timers[i].execTime <= now
    requires PlainOutcome(EraseTimer(w, x, i), x, i, now)
    ensures var ts := w.nodes[x].timers; var rest := DrainFrom(EraseTimer(w, x, i), x, i, now);
      && rest.w == SetNode(w, x, w.nodes[x].(timers := ts[..i] + Waiting(ts[i..], now)))
      && rest.trace == Calls(x, DueActions(ts[i + 1..], now))
  {
    var ts := w.nodes[x].timers;
    var w1 := EraseTimer(w, x, i);
    var ts1 := w1.nodes[x].timers;
    EraseView(ts, i);
    TimerSplit(ts, i, now);
    assert ts1[..i] == ts[..i] && ts1[i..] == ts[i + 1..];
    assert Waiting(ts[i..], now) == Waiting(ts[i + 1..], now);
    var n' := w.nodes[x].(timers := ts[..i] + Waiting(ts[i..], now));
    var rest := DrainFrom(w1, x, i, now);
    assert rest.w == SetNode(w1, x, w1.nodes[x].(timers := ts1[..i] + Waiting(ts1[i..], now)));
    assert w1.nodes[x].(timers := ts1[..i] + Waiting(ts1[i..], now)) == n';
    assert w1 == SetNode(w, x, w.nodes[x].(timers := ts1));
    SetNodeFacts(w, x, w.nodes[x].(timers := ts1), n');
    assert rest.trace == Calls(x, DueActions(ts1[i..], now));
  }

  lemma CallsCons(x: Id, a: TimerAction, acts: seq<TimerAction>)
    ensures Calls(x, [a] + acts) == Calls(x, [a]) + Calls(x, acts)
    ensures Calls(x, [a]) == if a.Callback? then [Event(x, TimerFired(a.tag))] else []
  {
    assert ([a] + acts)[1..] == acts;
    assert [a][1..] == [];
  }

  /** A timer not yet due is skipped and stays. */
  lemma PlainSkip(w: World, x: Id, i: nat, now: real)
    requires WF(w) && x in w.nodes && i < |w.nodes[x].timers|
    requires !w.nodes[x].timers[i].canceled && now < w.nodes[x].timers[i].execTime
    requires PlainOutcome(w, x, i + 1, now)
    ensures PlainOutcome(w, x, i, now)
  {
    var ts := w.nodes[x].timers;
    assert DrainFrom(w, x, i, now) == DrainFrom(w, x, i + 1, now);
    TimerSplit(ts, i, now);
    assert ts[..i + 1] + Waiting(ts[i + 1..], now) == ts[..i] + Waiting(ts[i..], now) by {
      assert ts[..i + 1] == ts[..i] + [ts[i]];
    }
    assert DueActions(ts[i..], now) == DueActions(ts[i + 1..], now);
  }

  /** The loop over timers that are all canceled erases them and runs none. */
  lemma {:induction false} DrainCanceled(w: World, x: Id, i: nat, now: real)
    requires WF(w) && x in w.nodes && i <= |w.nodes[x].timers|
    requires forall k :: i <= k < |w.nodes[x].timers| ==> w.nodes[x].timers[k].canceled
    ensures DrainFrom(w, x, i, now) == Step(SetNode(w, x, w.nodes[x].(timers := w.nodes[x].timers[..i])), [])
    decreases |w.nodes[x].timers| - i
  {
    var ts := w.nodes[x].timers;
    if i == |ts| {
      DrainEnd(w, x, now);
    } else {
      var w1 := EraseTimer(w, x, i);
      DrainCanceled(w1, x, i, now);
      CanceledStep(w, x, i, now);
    }
  }

  /** At the end of the queue the loop stops and changes nothing. */
  lemma DrainEnd(w: World, x: Id, now: real)
    requires WF(w) && x in w.nodes
    ensures var ts := w.nodes[x].timers;
      DrainFrom(w, x, |ts|, now) == Step(SetNode(w, x, w.nodes[x].(timers := ts[..|ts|])), [])
  {
    var ts := w.nodes[x].timers;
    assert ts[..|ts|] == ts;
    SetNodeFacts(w, x, w.nodes[x], w.nodes[x]);
  }

  /** A canceled timer is erased and the loop stays at its position. */
  lemma CanceledStep(w: World, x: Id, i: nat, now: real)
    requires WF(w) && x in w.nodes && i < |w.nodes[x].timers| && w.nodes[x].timers[i].canceled
    ensures DrainFrom(w, x, i, now) == DrainFrom(EraseTimer(w, x, i), x, i, now)
    ensures var ts := w.nodes[x].timers; var w1 := EraseTimer(w, x, i);
      SetNode(w1, x, w1.nodes[x].(timers := w1.nodes[x].timers[..i])) == SetNode(w, x, w.nodes[x].(timers := ts[..i]))
  {
    var ts := w.nodes[x].timers;
    var w1 := EraseTimer(w, x, i);
    EraseView(ts, i);
    SetNodeFacts(w, x, w1.nodes[x], w.nodes[x].(timers := ts[..i]));
  }

  /** The timers left before a self-destroy at position `k` once the loop
      has reached it from position `i`: the first `i`, then those of
      `ts[i..k]` still waiting. */
  function Pre(ts: seq<Timer>, i: nat, k: nat, now: real): seq<Timer>
    requires i <= k <= |ts|
  {
    ts[..i] + Waiting(ts[i..k], now)
  }

  /** The world at the moment the self-destroy at position `k` runs. */
  function FireWorld(w: World, x: Id, i: nat, k: nat, now: real): (r: World)
    requires WF(w) && x in w.nodes && i <= k <= |w.nodes[x].timers|
    ensures WF(r) && x in r.nodes
  {
    var ts := w.nodes[x].timers;
    SetNode(w, x, w.nodes[x].(timers := Pre(ts, i, k, now) + ts[k..]))
  }

  /** The outcome the loop should have from position `i` when the first
      due self-destroy of the live node `x` sits at position `k`: the
      callbacks due before it run; the self-destroy destroys `x` (and what
      lies below it) with the queue as it then stands, which cancels every
      remaining timer, so the loop erases the rest unrun. */
  ghost predicate DestroyOutcome(w: World, x: Id, i: nat, k: nat, now: real)
    requires WF(w) && x in w.nodes && i <= k <= |w.nodes[x].timers|
  {
    var ts := w.nodes[x].timers;
    var d := Destroy(FireWorld(w, x, i, k, now), x);
    DrainFrom(w, x, i, now) ==
      Step(SetNode(d, x, d.nodes[x].(timers := CancelAll(Pre(ts, i, k, now)))), Calls(x, DueActions(ts[i..k], now)))
  }

  /** A live self-destroy due at `now`, with no earlier one due. */
  predicate FirstDueDestroy(ts: seq<Timer>, i: nat, k: nat, now: real)
  {
    && i <= k < |ts|
    && ts[k].action == DestroySelf && !ts[k].canceled && ts[k].execTime <= now
    && DestroySelf !in DueActions(ts[i..k], now)
  }

  lemma {:induction false} DrainDestroy(w: World, x: Id, i: nat, k: nat, now: real)
    requires WF(w) && x in w.nodes && !w.nodes[x].destroyed
    requires FirstDueDestroy(w.nodes[x].timers, i, k, now)
    ensures DestroyOutcome(w, x, i, k, now)
    decreases k - i
  {
    var ts := w.nodes[x].timers;
    if i == k {
      DestroyFires(w, x, k, now);
    } else {
      ShiftFacts(w, x, i, k, now);
      if ts[i].canceled || ts[i].execTime <= now {
        ErasedNode(w, x, i);
        DrainDestroy(EraseTimer(w, x, i), x, i, k - 1, now);
        DestroyErase(w, x, i, k, now);
      } else {
        DrainDestroy(w, x, i + 1, k, now);
        DestroySkip(w, x, i, k, now);
      }
    }
  }

  /** How the loop's view moves by one step before the self-destroy: the
      due actions lose their head, and the world at firing time stays the
      same whether the timer at `i` is erased or skipped. */
  lemma ShiftFacts(w: World, x: Id, i: nat, k: nat, now: real)
    requires WF(w) && x in w.nodes && FirstDueDestroy(w.nodes[x].timers, i, k, now) && i < k
    ensures var ts := w.nodes[x].timers;
      DueActions(ts[i..k], now) == (if !ts[i].canceled && ts[i].execTime <= now then [ts[i].action] else []) + DueActions(ts[i + 1..k], now)
    ensures var ts := w.nodes[x].timers;
      !ts[i].canceled && now < ts[i].execTime ==>
        FirstDueDestroy(ts, i + 1, k, now) && Pre(ts, i + 1, k, now) == Pre(ts, i, k, now) &&
        FireWorld(w, x, i + 1, k, now) == FireWorld(w, x, i, k, now)
    ensures var ts := w.nodes[x].timers; var ts1 := EraseTimer(w, x, i).nodes[x].timers;
      ts[i].canceled || ts[i].execTime <= now ==>
        FirstDueDestroy(ts1, i, k - 1, now) && ts1[i..k - 1] == ts[i + 1..k] &&
        Pre(ts1, i, k - 1, now) == Pre(ts, i, k, now) &&
        FireWorld(EraseTimer(w, x, i), x, i, k - 1, now) == FireWorld(w, x, i, k, now)
  {
    var ts := w.nodes[x].timers;
    ShiftDue(ts, i, k, now);
    if !ts[i].canceled && now < ts[i].execTime {
      ShiftSkip(w, x, i, k, now);
    }
    if ts[i].canceled || ts[i].execTime <= now {
      ShiftErase(w, x, i, k, now);
    }
  }

  lemma ShiftDue(ts: seq<Timer>, i: nat, k: nat, now: real)
    requires i < k <= |ts|
    ensures DueActions(ts[i..k], now) == (if !ts[i].canceled && ts[i].execTime <= now then [ts[i].action] else []) + DueActions(ts[i + 1..k], now)
    ensures Waiting(ts[i..k], now) == (if !ts[i].canceled && now < ts[i].execTime then [ts[i]] else []) + Waiting(ts[i + 1..k], now)
  {
    var u := ts[i..k];
    assert u[0] == ts[i] && u[1..] == ts[i + 1..k];
  }

  /** Skipping a waiting timer before the self-destroy moves it from the
      loop's view into the kept prefix. */
  lemma SkipShift(ts: seq<Timer>, i: nat, k: nat, now: real)
    requires FirstDueDestroy(ts, i, k, now) && i < k
    requires !ts[i].canceled && now < ts[i].execTime
    ensures FirstDueDestroy(ts, i + 1, k, now) && Pre(ts, i + 1, k, now) == Pre(ts, i, k, now)
  {
    ShiftDue(ts, i, k, now);
    TakeSnoc(ts, i);
  }

  lemma ShiftSkip(w: World, x: Id, i: nat, k: nat, now: real)
    requires WF(w) && x in w.nodes && FirstDueDestroy(w.nodes[x].timers, i, k, now) && i < k
    requires !w.nodes[x].timers[i].canceled && now < w.nodes[x].timers[i].execTime
    ensures var ts := w.nodes[x].timers;
      FirstDueDestroy(ts, i + 1, k, now) && Pre(ts, i + 1, k, now) == Pre(ts, i, k, now) &&
      FireWorld(w, x, i + 1, k, now) == FireWorld(w, x, i, k, now)
  {
    SkipShift(w.nodes[x].timers, i, k, now);
  }

  /** Erasing a canceled or due timer before the self-destroy drops it
      from the loop's view and leaves the kept prefix as it was. */
  lemma EraseShift(ts: seq<Timer>, i: nat, k: nat, now: real)
    requires FirstDueDestroy(ts, i, k, now) && i < k
    requires ts[i].canceled || ts[i].execTime <= now
    ensures var ts1 := ts[..i] + ts[i + 1..];
      FirstDueDestroy(ts1, i, k - 1, now) && ts1[i..k - 1] == ts[i + 1..k] &&
      Pre(ts1, i, k - 1, now) == Pre(ts, i, k, now) && ts1[k - 1..] == ts[k..]
  {
    ShiftDue(ts, i, k, now);
    EraseSlices(ts, i, k);
  }

  lemma ShiftErase(w: World, x: Id, i: nat, k: nat, now: real)
    requires WF(w) && x in w.nodes && FirstDueDestroy(w.nodes[x].timers, i, k, now) && i < k
    requires w.nodes[x].timers[i].canceled || w.nodes[x].timers[i].execTime <= now
    ensures var ts := w.nodes[x].timers; var ts1 := EraseTimer(w, x, i).nodes[x].timers;
      FirstDueDestroy(ts1, i, k - 1, now) && ts1[i..k - 1] == ts[i + 1..k] &&
      Pre(ts1, i, k - 1, now) == Pre(ts, i, k, now) &&
      FireWorld(EraseTimer(w, x, i), x, i, k - 1, now) == FireWorld(w, x, i, k, now)
  {
    var ts := w.nodes[x].timers;
    EraseShift(ts, i, k, now);
    var w1 := EraseTimer(w, x, i);
    assert w1.nodes[x].timers == ts[..i] + ts[i + 1..];
    SetNodeFacts(w, x, w1.nodes[x], w.nodes[x].(timers := Pre(ts, i, k, now) + ts[k..]));
  }

  /** One erasing step of the loop, on a timer that is canceled or due
      without a live self-destroy: the loop records the callback, if any,
      and goes on from the same position. */
  lemma DrainEraseStep(w: World, x: Id, i: nat, now: real)
    requires WF(w) && x in w.nodes && i < |w.nodes[x].timers|
    requires var tm := w.nodes[x].timers[i];
      tm.canceled || (tm.execTime <= now && (w.nodes[x].destroyed || tm.action != DestroySelf))
    ensures var ts := w.nodes[x].timers; var rest := DrainFrom(EraseTimer(w, x, i), x, i, now);
      DrainFrom(w, x, i, now) == Step(rest.w, Calls(x, if ts[i].canceled then [] else [ts[i].action]) + rest.trace)
  {
    var ts := w.nodes[x].timers;
    if !ts[i].canceled {
      assert Fire(w, x, ts[i].action).w == w;
      CallsCons(x, ts[i].action, []);
    }
  }

  /** The self-destroy itself. */
  lemma DestroyFires(w: World, x: Id, k: nat, now: real)
    requires WF(w) && x in w.nodes && !w.nodes[x].destroyed
    requires FirstDueDestroy(w.nodes[x].timers, k, k, now)
    ensures DestroyOutcome(w, x, k, k, now)
  {
    var ts := w.nodes[x].timers;
    assert FireWorld(w, x, k, k, now) == w by {
      assert ts[k..k] == [];
      assert Pre(ts, k, k, now) + ts[k..] == ts;
      assert w.nodes[x].(timers := ts) == w.nodes[x];
      SetNodeFacts(w, x, w.nodes[x], w.nodes[x]);
    }
    FireStep(w, x, k, now);
    var d := Destroy(w, x);
    AfterFire(d, x, k, ts, now);
    assert ts[k..k] == [] && Pre(ts, k, k, now) == ts[..k];
  }

  /** Running the self-destroy at position `k`, then erasing it. */
  lemma FireStep(w: World, x: Id, k: nat, now: real)
    requires WF(w) && x in w.nodes && !w.nodes[x].destroyed
    requires FirstDueDestroy(w.nodes[x].timers, k, k, now)
    ensures var d := Destroy(w, x);
      d.nodes[x].timers == CancelAll(w.nodes[x].timers) &&
      DrainFrom(w, x, k, now) == DrainFrom(EraseTimer(d, x, k), x, k, now)
  {
    var d := Destroy(w, x);
    var f := Fire(w, x, DestroySelf);
    assert f == Step(d, []);
    var rest := DrainFrom(EraseTimer(d, x, k), x, k, now);
    assert DrainFrom(w, x, k, now) == Step(rest.w, f.trace + rest.trace);
    assert f.trace + rest.trace == rest.trace;
  }

  /** After the self-destroy every remaining timer is canceled, so the
      loop erases them all and records nothing. */
  lemma AfterFire(d: World, x: Id, k: nat, ts: seq<Timer>, now: real)
    requires WF(d) && x in d.nodes && k < |ts| && d.nodes[x].timers == CancelAll(ts)
    ensures DrainFrom(EraseTimer(d, x, k), x, k, now) ==
      Step(SetNode(d, x, d.nodes[x].(timers := CancelAll(ts[..k]))), [])
  {
    var w1 := EraseTimer(d, x, k);
    assert w1.nodes[x].timers == CancelAll(ts)[..k] + CancelAll(ts)[k + 1..];
    DrainCanceled(w1, x, k, now);
    assert (CancelAll(ts)[..k] + CancelAll(ts)[k + 1..])[..k] == CancelAll(ts[..k]);
    SetNodeFacts(d, x, w1.nodes[x], d.nodes[x].(timers := CancelAll(ts[..k])));
  }

  /** Before the self-destroy: a canceled timer, or a due callback, is
      erased. */
  lemma DestroyErase(w: World, x: Id, i: nat, k: nat, now: real)
    requires WF(w) && x in w.nodes && !w.nodes[x].destroyed
    requires FirstDueDestroy(w.nodes[x].timers, i, k, now) && i < k
    requires w.nodes[x].timers[i].canceled || w.nodes[x].timers[i].execTime <= now
    requires var ts := w.nodes[x].timers; var ts1 := EraseTimer(w, x, i).nodes[x].timers;
      && ts1[i..k - 1] == ts[i + 1..k]
      && Pre(ts1, i, k - 1, now) == Pre(ts, i, k, now)
      && FireWorld(EraseTimer(w, x, i), x, i, k - 1, now) == FireWorld(w, x, i, k, now)
      && DueActions(ts[i..k], now) == (if !ts[i].canceled then [ts[i].action] else []) + DueActions(ts[i + 1..k], now)
    requires DestroyOutcome(EraseTimer(w, x, i), x, i, k - 1, now)
    ensures DestroyOutcome(w, x, i, k, now)
  {
    var ts := w.nodes[x].timers;
    var w1 := EraseTimer(w, x, i);
    var ts1 := w1.nodes[x].timers;
    assert !ts[i].canceled ==> ts[i].action in DueActions(ts[i..k], now);
    DrainEraseStep(w, x, i, now);
    var head := if ts[i].canceled then [] else [ts[i].action];
    var rest := DrainFrom(w1, x, i, now);
    var d := Destroy(FireWorld(w, x, i, k, now), x);
    assert rest.w == SetNode(d, x, d.nodes[x].(timers := CancelAll(Pre(ts, i, k, now))));
    assert rest.trace == Calls(x, DueActions(ts[i + 1..k], now));
    assert DueActions(ts[i..k], now) == head + DueActions(ts[i + 1..k], now);
    assert Calls(x, head) + rest.trace == Calls(x, DueActions(ts[i..k], now)) by {
      if ts[i].canceled {
        assert head + DueActions(ts[i + 1..k], now) == DueActions(ts[i + 1..k], now);
      } else {
        CallsCons(x, ts[i].action, DueActions(ts[i + 1..k], now));
      }
    }
  }

  /** Before the self-destroy: a timer not yet due is skipped. */
  lemma DestroySkip(w: World, x: Id, i: nat, k: nat, now: real)
    requires WF(w) && x in w.nodes && !w.nodes[x].destroyed
    requires FirstDueDestroy(w.nodes[x].timers, i, k, now) && i < k
    requires !w.nodes[x].timers[i].canceled && now < w.nodes[x].timers[i].execTime
    requires var ts := w.nodes[x].timers;
      && Pre(ts, i + 1, k, now) == Pre(ts, i, k, now)
      && FireWorld(w, x, i + 1, k, now) == FireWorld(w, x, i, k, now)
      && DueActions(ts[i..k], now) == DueActions(ts[i + 1..k], now)
    requires DestroyOutcome(w, x, i + 1, k, now)
    ensures DestroyOutcome(w, x, i, k, now)
  {
    assert DrainFrom(w, x, i, now) == DrainFrom(w, x, i + 1, now);
  }

  /** `clearTimerFunctions` and the timer loop: after a clear, the next
      update erases every timer and runs none of them. */
  lemma DrainAfterClear(w: World, x: Id, now: real)
    requires WF(w) && x in w.nodes
    ensures var w1 := SetNode(w, x, ClearTimerFunctions(w.nodes[x]));
      Drain(w1, x, now) == Step(SetNode(w, x, w.nodes[x].(timers := [])), [])
  {
    var w1 := SetNode(w, x, ClearTimerFunctions(w.nodes[x]));
    DrainCanceled(w1, x, 0, now);
    SetNodeFacts(w, x, ClearTimerFunctions(w.nodes[x]), w.nodes[x].(timers := []));
  }

  /** A timer added by `addTimerFunction(f, wait)` at time `now` is run by
      the first update at or after `now + wait`, after the timers queued
      before it, and waits until then. */
  lemma AddedTimerRuns(n: Node, action: TimerAction, wait: real, now: real, later: real)
    ensures var ts := AddTimerFunction(n, action, wait, now).timers;
      DueActions(ts, later) == DueActions(n.timers, later) + (if now + wait <= later then [action] else [])
    ensures var ts := AddTimerFunction(n, action, wait, now).timers;
      Waiting(ts, later) == Waiting(n.timers, later) + (if now + wait <= later then [] else [ts[|ts| - 1]])
  {
    AppendFilters(n.timers, NewTimer(action, wait, now), later);
  }

  lemma {:induction false} AppendFilters(ts: seq<Timer>, tm: Timer, now: real)
    ensures DueActions(ts + [tm], now) == DueActions(ts, now) + (if !tm.canceled && tm.execTime <= now then [tm.action] else [])
    ensures Waiting(ts + [tm], now) == Waiting(ts, now) + (if !tm.canceled && now < tm.execTime then [tm] else [])
  {
    if ts != [] {
      assert (ts + [tm])[1..] == ts[1..] + [tm];
      AppendFilters(ts[1..], tm, now);
    } else {
      assert [tm][1..] == [];
    }
  }

  /** When a live self-destroy is due somewhere from position `i` on, there
      is a first one. */
  lemma {:induction false} FirstDestroyAt(ts: seq<Timer>, i: nat, now: real) returns (k: nat)
    requires i <= |ts| && DestroySelf in DueActions(ts[i..], now)
    ensures FirstDueDestroy(ts, i, k, now)
    decreases |ts| - i
  {
    if i < |ts| && !(ts[i].action == DestroySelf && !ts[i].canceled && ts[i].execTime <= now) {
      TimerSplit(ts, i, now);
      k := FirstDestroyAt(ts, i + 1, now);
      ShiftDue(ts, i, k, now);
    } else {
      k := i;
      assert ts[i..k] == [];
    }
  }

  /** The whole timer loop, for every queue: it leaves `x` destroyed exactly
      when `x` was destroyed already or a self-destroy was due; without a
      self-destroy of a live node it keeps exactly the waiting timers and
      records every due callback, in queue order, changing nothing else. */
  lemma DrainOutcome(w: World, x: Id, now: real)
    requires WF(w) && x in w.nodes
    ensures var n := w.nodes[x]; var s := Drain(w, x, now);
      && (s.w.nodes[x].destroyed <==> n.destroyed || DestroySelf in DueActions(n.timers, now))
      && (n.destroyed || DestroySelf !in DueActions(n.timers, now) ==>
            s == Step(SetNode(w, x, n.(timers := Waiting(n.timers, now))), Calls(x, DueActions(n.timers, now))))
  {
    var ts := w.nodes[x].timers;
    assert ts[0..] == ts && ts[..0] == [];
    if w.nodes[x].destroyed || DestroySelf !in DueActions(ts, now) {
      DrainPlain(w, x, 0, now);
      assert ts[..0] + Waiting(ts[0..], now) == Waiting(ts, now);
    } else {
      var k := FirstDestroyAt(ts, 0, now);
      DrainDestroy(w, x, 0, k, now);
    }
  }

  /** `destroy(delaySec)` on a live node with no self-destroy already due,
      followed by the timer loop at time `later`: the node (with what lies
      below it) is destroyed exactly when `later` has reached `now +
      delaySec`; the callbacks queued before run as they would have; and
      otherwise the node keeps the timers still waiting with the new
      self-destroy behind them. Nothing outside the subtree changes. */
  lemma DestroyAfterRuns(w: World, rk: map<Id, nat>, x: Id, delay: real, now: real, later: real)
    requires WF(w) && Valid(w.links, rk) && x in w.nodes && !w.nodes[x].destroyed
    requires DestroySelf !in DueActions(w.nodes[x].timers, later)
    ensures var n := w.nodes[x]; var s := Drain(DestroyAfter(w, x, delay, now), x, later);
      && (s.w.nodes[x].destroyed <==> now + delay <= later)
      && s.trace == Calls(x, DueActions(n.timers, later))
      && (later < now + delay ==>
            s.w == SetNode(w, x, n.(timers := Waiting(n.timers, later) + [NewTimer(DestroySelf, delay, now)])))
      && (now + delay <= later ==> forall y :: y in w.nodes ==>
            (s.w.nodes[y].destroyed <==> w.nodes[y].destroyed || Within(w.links, rk, Undestroyed(w), y, x)))
      && (forall y :: y in w.nodes && !Anc(w.links, rk, y, x) ==> s.w.nodes[y] == w.nodes[y])
  {
    var n := w.nodes[x];
    var w1 := DestroyAfter(w, x, delay, now);
    var n1 := w1.nodes[x];
    var ts1 := n1.timers;
    AddedTimerRuns(n, DestroySelf, delay, now, later);
    DrainOutside(w1, rk, x, 0, later);
    assert Anc(w.links, rk, x, x);
    if now + delay <= later {
      var k := |n.timers|;
      assert ts1[0..k] == n.timers;
      assert FirstDueDestroy(ts1, 0, k, later);
      DrainDestroy(w1, x, 0, k, later);
      DestroyAfterFires(w, rk, x, delay, now, later);
    } else {
      assert DueActions(ts1, later) == DueActions(n.timers, later) by {
        assert DueActions(n.timers, later) + [] == DueActions(n.timers, later);
      }
      DrainOutcome(w1, x, later);
      SetNodeFacts(w, x, n1, n1.(timers := Waiting(ts1, later)));
    }
  }

  /** The due case of `DestroyAfterRuns`: the new timer is the first due
      self-destroy, and it destroys what a `destroy()` from `w` would. */
  lemma DestroyAfterFires(w: World, rk: map<Id, nat>, x: Id, delay: real, now: real, later: real)
    requires WF(w) && Valid(w.links, rk) && x in w.nodes && !w.nodes[x].destroyed
    requires now + delay <= later
    requires var w1 := DestroyAfter(w, x, delay, now);
      DestroyOutcome(w1, x, 0, |w.nodes[x].timers|, later)
    ensures var s := Drain(DestroyAfter(w, x, delay, now), x, later);
      forall y :: y in w.nodes ==>
        (s.w.nodes[y].destroyed <==> w.nodes[y].destroyed || Within(w.links, rk, Undestroyed(w), y, x))
  {
    var w1 := DestroyAfter(w, x, delay, now);
    var k := |w.nodes[x].timers|;
    var fw := FireWorld(w1, x, 0, k, later);
    assert Undestroyed(fw) == Undestroyed(w);
    DestroyEffects(fw, rk, x);
    assert Anc(w.links, rk, x, x);
  }
}
