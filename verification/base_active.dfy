/** The active flags of the current engine: a node's own `isActive`, the
    effective ("global") activity that requires the node and all its
    ancestors to be active, and `setActive`, which notifies the node of its
    own change and the affected part of its subtree of a change in
    effective activity. */
module BaseActive {
  import opened Common
  import opened Forest
  import opened Passes
  import opened BaseNode
  import opened BaseLifecycle

  /** The nodes whose own flag is set. */
  function Actives(w: World): set<Id>
  {
    set y | y in w.nodes && w.nodes[y].isActive
  }

  /** `getGlobalActive()` with the evident intent of its inactive branch:
      an inactive node is not globally active; an active root is; an active
      node with a parent is exactly when the parent is. */
  function GetGlobalActive(w: World, ghost rk: map<Id, nat>, x: Id): bool
    requires WF(w) && Valid(w.links, rk) && x in w.nodes
    decreases Above(rk, rk[x])
  {
    if w.nodes[x].isActive then
      match w.links[x].parent
      case None => true
      case Some(p) =>
        AboveShrinks(rk, x, p);
        GetGlobalActive(w, rk, p)
    else false
  }

  /** Reference: every node from `x` up to the root is active. */
  ghost predicate ActiveUpward(w: World, rk: map<Id, nat>, x: Id)
    requires WF(w) && Valid(w.links, rk) && x in w.nodes
  {
    forall a :: a in w.nodes && Anc(w.links, rk, x, a) ==> w.nodes[a].isActive
  }

  /** A node is globally active exactly when it and every ancestor are
      active. */
  lemma {:induction false} GlobalActiveIsUpward(w: World, rk: map<Id, nat>, x: Id)
    requires WF(w) && Valid(w.links, rk) && x in w.nodes
    ensures GetGlobalActive(w, rk, x) <==> ActiveUpward(w, rk, x)
    decreases Above(rk, rk[x])
  {
    assert Anc(w.links, rk, x, x);
    if w.nodes[x].isActive && w.links[x].parent.Some? {
      var p := w.links[x].parent.value;
      AboveShrinks(rk, x, p);
      GlobalActiveIsUpward(w, rk, p);
      forall a | a in w.nodes && Anc(w.links, rk, x, a) && a != x
        ensures Anc(w.links, rk, p, a)
      {
      }
      forall a | a in w.nodes && Anc(w.links, rk, p, a)
        ensures Anc(w.links, rk, x, a)
      {
      }
    }
  }

  /** `getGlobalActive()` exactly as written: the inactive branch evaluates
      `false;` and falls off the end of a function returning `bool`, which
      is undefined behaviour in C++. `unspecified` stands for whatever value
      the caller then reads. */
  function GetGlobalActiveAsWritten(w: World, ghost rk: map<Id, nat>, x: Id, unspecified: bool): bool
    requires WF(w) && Valid(w.links, rk) && x in w.nodes
    decreases Above(rk, rk[x])
  {
    if w.nodes[x].isActive then
      match w.links[x].parent
      case None => true
      case Some(p) =>
        AboveShrinks(rk, x, p);
        GetGlobalActiveAsWritten(w, rk, p, unspecified)
    else unspecified
  }

  /** As written, the result agrees with the intended one exactly when the
      unspecified value happens to be `false` or no inactive node is met. */
  lemma {:induction false} AsWrittenGlobalActive(w: World, rk: map<Id, nat>, x: Id, unspecified: bool)
    requires WF(w) && Valid(w.links, rk) && x in w.nodes
    ensures !unspecified ==> GetGlobalActiveAsWritten(w, rk, x, unspecified) == GetGlobalActive(w, rk, x)
    ensures unspecified ==> GetGlobalActiveAsWritten(w, rk, x, unspecified)
    decreases Above(rk, rk[x])
  {
    if w.nodes[x].isActive && w.links[x].parent.Some? {
      var p := w.links[x].parent.value;
      AboveShrinks(rk, x, p);
      AsWrittenGlobalActive(w, rk, p, unspecified);
    }
  }

  /** A single inactive root: as written it may report itself globally
      active, where the intended answer is `false`. */
  lemma AsWrittenGlobalActiveCounterexample()
    ensures var n := NewNode().(isActive := false);
      var w := World(map[0 := Link(None, [])], map[0 := n], []);
      var rk := map[0 := 0];
      WF(w) && Valid(w.links, rk) &&
      GetGlobalActiveAsWritten(w, rk, 0, true) && !GetGlobalActive(w, rk, 0)
  {
  }

  // ---------------------------------------------------------------------
  // setActive and globalActiveChanged

  /** `globalActiveChanged(v)`: `onGlobalActiveChanged(v)` on `x`, then
      recursively on each child whose own flag is set, in order. */
  function GlobalActiveChanged(w: World, ghost rk: map<Id, nat>, x: Id, v: bool): seq<Event>
    requires WF(w) && Valid(w.links, rk) && x in w.nodes
  {
    Notify(w.links, rk, Actives(w), x, OnGlobalActiveChanged(v))
  }

  /** `setActive(v)`: nothing when the flag already equals `v`; otherwise
      store it, call `onActiveChanged(v)`, and if that flipped the node's
      effective activity notify the subtree. */
  function SetActive(w: World, ghost rk: map<Id, nat>, x: Id, v: bool): (s: Step)
    requires WF(w) && Valid(w.links, rk) && x in w.nodes
    ensures WF(s.w) && s.w.links == w.links && s.w.destroyedComponents == w.destroyedComponents
    ensures s.w.nodes == w.nodes[x := w.nodes[x].(isActive := v)]
    ensures w.nodes[x].isActive == v ==> s == Step(w, [])
    ensures w.nodes[x].isActive != v ==> |s.trace| > 0 && s.trace[0] == Event(x, OnActiveChanged(v))
  {
    if w.nodes[x].isActive == v then
      assert w.nodes[x := w.nodes[x].(isActive := v)] == w.nodes;
      Step(w, [])
    else
      var before := GetGlobalActive(w, rk, x);
      var w1 := SetNode(w, x, w.nodes[x].(isActive := v));
      var after := GetGlobalActive(w1, rk, x);
      var head := [Event(x, OnActiveChanged(v))];
      if after != before then Step(w1, head + GlobalActiveChanged(w1, rk, x, after))
      else Step(w1, head)
  }

  /** The events of a trace that notify `y` of a change in effective
      activity. */
  predicate NotifiedOf(tr: seq<Event>, y: Id)
  {
    exists b :: Event(y, OnGlobalActiveChanged(b)) in tr
  }

  /** Changing only `x`'s own flag leaves the effective activity of every
      node outside `x`'s subtree as it was. */
  lemma {:induction false} GlobalActiveOutside(w: World, w1: World, rk: map<Id, nat>, x: Id, y: Id)
    requires WF(w) && Valid(w.links, rk) && x in w.nodes && y in w.nodes
    requires w1.links == w.links && w1.nodes.Keys == w.nodes.Keys
    requires forall z :: z in w.nodes && z != x ==> w1.nodes[z].isActive == w.nodes[z].isActive
    requires !Anc(w.links, rk, y, x)
    ensures GetGlobalActive(w1, rk, y) == GetGlobalActive(w, rk, y)
    decreases Above(rk, rk[y])
  {
    if w.links[y].parent.Some? {
      var p := w.links[y].parent.value;
      AboveShrinks(rk, y, p);
      GlobalActiveOutside(w, w1, rk, x, p);
    }
  }

  /** Inside `x`'s subtree, a node is effectively active exactly when the
      path from it up to `x` (excluding `x`) is active and `x` is
      effectively active. */
  lemma {:induction false} GlobalActiveBelow(w: World, rk: map<Id, nat>, x: Id, y: Id)
    requires WF(w) && Valid(w.links, rk) && x in w.nodes && y in w.nodes
    requires Anc(w.links, rk, y, x)
    ensures GetGlobalActive(w, rk, y) == (Within(w.links, rk, Actives(w), y, x) && GetGlobalActive(w, rk, x))
    decreases Above(rk, rk[y])
  {
    if y != x {
      var p := w.links[y].parent.value;
      AboveShrinks(rk, y, p);
      GlobalActiveBelow(w, rk, x, p);
    }
  }

  /** Whether the path from `y` up to `a` is gated does not depend on the
      gate's verdict on `a` itself. */
  lemma {:induction false} WithinIgnoresTop(t: Links, rk: map<Id, nat>, g1: set<Id>, g2: set<Id>, y: Id, a: Id)
    requires Closed(t) && Ranked(t, rk) && y in t
    requires forall z :: z in t && z != a ==> (z in g1 <==> z in g2)
    ensures Within(t, rk, g1, y, a) == Within(t, rk, g2, y, a)
    decreases Above(rk, rk[y])
  {
    if y != a && t[y].parent.Some? {
      var p := t[y].parent.value;
      AboveShrinks(rk, y, p);
      WithinIgnoresTop(t, rk, g1, g2, p, a);
    }
  }

  /** Changing `x`'s flag changes the effective activity of a node `y`
      exactly when it changes that of `x` and `y` hangs below `x` through
      active nodes; the new value is then `x`'s. */
  lemma FlipBelow(w: World, rk: map<Id, nat>, x: Id, v: bool, y: Id)
    requires WF(w) && Valid(w.links, rk) && x in w.nodes && y in w.nodes
    ensures var w1 := SetNode(w, x, w.nodes[x].(isActive := v));
      && (GetGlobalActive(w1, rk, y) != GetGlobalActive(w, rk, y) <==>
           GetGlobalActive(w1, rk, x) != GetGlobalActive(w, rk, x) && Within(w.links, rk, Actives(w1), y, x))
      && (Within(w.links, rk, Actives(w1), y, x) ==> GetGlobalActive(w1, rk, y) == GetGlobalActive(w1, rk, x))
  {
    var w1 := SetNode(w, x, w.nodes[x].(isActive := v));
    assert forall z :: z in w.nodes && z != x ==> w1.nodes[z].isActive == w.nodes[z].isActive;
    WithinIgnoresTop(w.links, rk, Actives(w), Actives(w1), y, x);
    if Anc(w.links, rk, y, x) {
      GlobalActiveBelow(w, rk, x, y);
      GlobalActiveBelow(w1, rk, x, y);
    } else {
      GlobalActiveOutside(w, w1, rk, x, y);
      if Within(w.links, rk, Actives(w1), y, x) {
        WithinAnc(w.links, rk, Actives(w1), y, x);
      }
    }
  }

  /** `setActive` notifies exactly the nodes whose effective activity it
      flips, each with its new effective value; a call that does not change
      the flag notifies nobody. */
  lemma SetActiveNotifiesFlipped(w: World, rk: map<Id, nat>, x: Id, v: bool, y: Id)
    requires WF(w) && Valid(w.links, rk) && x in w.nodes && y in w.nodes
    ensures var s := SetActive(w, rk, x, v);
      && (NotifiedOf(s.trace, y) <==> GetGlobalActive(s.w, rk, y) != GetGlobalActive(w, rk, y))
      && (forall b :: Event(y, OnGlobalActiveChanged(b)) in s.trace ==> b == GetGlobalActive(s.w, rk, y))
  {
    var n := w.nodes[x];
    if n.isActive != v {
      var w1 := SetNode(w, x, n.(isActive := v));
      var after := GetGlobalActive(w1, rk, x);
      var tail := if after != GetGlobalActive(w, rk, x) then GlobalActiveChanged(w1, rk, x, after) else [];
      assert SetActive(w, rk, x, v) == Step(w1, [Event(x, OnActiveChanged(v))] + tail);
      FlipBelow(w, rk, x, v, y);
      NotifiedInTail(w, rk, x, v, y, tail);
    }
  }

  /** The notification part of a flag change, read off the gated walk. */
  lemma NotifiedInTail(w: World, rk: map<Id, nat>, x: Id, v: bool, y: Id, tail: seq<Event>)
    requires WF(w) && Valid(w.links, rk) && x in w.nodes && y in w.nodes
    requires var w1 := SetNode(w, x, w.nodes[x].(isActive := v)); var after := GetGlobalActive(w1, rk, x);
      tail == if after != GetGlobalActive(w, rk, x) then GlobalActiveChanged(w1, rk, x, after) else []
    ensures var w1 := SetNode(w, x, w.nodes[x].(isActive := v)); var after := GetGlobalActive(w1, rk, x);
      && (NotifiedOf(tail, y) <==> after != GetGlobalActive(w, rk, x) && Within(w.links, rk, Actives(w1), y, x))
      && (forall b :: Event(y, OnGlobalActiveChanged(b)) in tail ==> b == after)
  {
    var w1 := SetNode(w, x, w.nodes[x].(isActive := v));
    var after := GetGlobalActive(w1, rk, x);
    var ws := Walk(w.links, rk, Actives(w1), x);
    NotifyIsWalk(w.links, rk, Actives(w1), x, OnGlobalActiveChanged(after));
    WalkComplete(w.links, rk, Actives(w1), x);
    if after != GetGlobalActive(w, rk, x) && y in ws {
      assert Event(y, OnGlobalActiveChanged(after)) in tail;
    }
  }

  /** No hook call of `setActive` repeats: in particular each node is
      notified at most once. */
  lemma SetActiveNoRepeat(w: World, rk: map<Id, nat>, x: Id, v: bool)
    requires WF(w) && Valid(w.links, rk) && x in w.nodes
    ensures NoDup(SetActive(w, rk, x, v).trace)
  {
    var n := w.nodes[x];
    if n.isActive != v {
      var w1 := SetNode(w, x, n.(isActive := v));
      var after := GetGlobalActive(w1, rk, x);
      var head := [Event(x, OnActiveChanged(v))];
      var tail := if after != GetGlobalActive(w, rk, x) then GlobalActiveChanged(w1, rk, x, after) else [];
      assert SetActive(w, rk, x, v).trace == head + tail;
      var ws := Walk(w.links, rk, Actives(w1), x);
      NotifyIsWalk(w.links, rk, Actives(w1), x, OnGlobalActiveChanged(after));
      WalkNoDup(w.links, rk, Actives(w1), x);
      HookOnNoDup(ws, OnGlobalActiveChanged(after));
      assert NoDup(head);
      assert forall e :: e in tail ==> e !in head;
      NoDupAppend(head, tail);
    }
  }
}
