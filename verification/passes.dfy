/** The two shapes of recursive pass both engine generations use, as hook
    traces over the hierarchy: the bracketed pass of `update` and `draw`
    (a hook before and a hook after the children), and the one-hook pass of
    `setup`, `exit` and the notifications, optionally gated. Each is proved
    to be a pre-order walk. */
module Passes {
  import opened Common
  import opened Forest

  // ---------------------------------------------------------------------
  // Reference traces

  /** The bracketed pre-order trace of a gated traversal: `pre` on `x`,
      the traces of the gated children in order, then `post` on `x`. */
  function Bracket(t: Links, ghost rk: map<Id, nat>, g: set<Id>, x: Id, pre: Hook, post: Hook): seq<Event>
    requires Valid(t, rk) && x in t
    decreases rk[x], 1
  {
    [Event(x, pre)] + BracketFrom(t, rk, g, x, 0, pre, post) + [Event(x, post)]
  }

  function BracketFrom(t: Links, ghost rk: map<Id, nat>, g: set<Id>, x: Id, i: nat, pre: Hook, post: Hook): seq<Event>
    requires Valid(t, rk) && x in t && i <= |t[x].children|
    decreases rk[x], 0, |t[x].children| - i
  {
    if i == |t[x].children| then []
    else
      var c := t[x].children[i];
      (if c in g then Bracket(t, rk, g, c, pre, post) else []) + BracketFrom(t, rk, g, x, i + 1, pre, post)
  }

  /** Read off its opening hooks, a bracketed trace is the gated walk. */
  lemma {:induction false} BracketOpens(t: Links, rk: map<Id, nat>, g: set<Id>, x: Id, pre: Hook, post: Hook)
    requires Valid(t, rk) && x in t && pre != post
    ensures OnlyHook(Bracket(t, rk, g, x, pre, post), pre) == HookOn(Walk(t, rk, g, x), pre)
    decreases rk[x], 1
  {
    var mid := BracketFrom(t, rk, g, x, 0, pre, post);
    BracketFromOpens(t, rk, g, x, 0, pre, post);
    OnlyHookAppend([Event(x, pre)] + mid, [Event(x, post)], pre);
    OnlyHookAppend([Event(x, pre)], mid, pre);
    HookOnAppend([x], WalkFrom(t, rk, g, x, 0), pre);
    assert OnlyHook([Event(x, post)], pre) == [] by {
      assert [Event(x, post)][1..] == [];
    }
    assert OnlyHook([Event(x, pre)], pre) == [Event(x, pre)] by {
      assert [Event(x, pre)][1..] == [];
    }
  }

  lemma {:induction false} BracketFromOpens(t: Links, rk: map<Id, nat>, g: set<Id>, x: Id, i: nat, pre: Hook, post: Hook)
    requires Valid(t, rk) && x in t && i <= |t[x].children| && pre != post
    ensures OnlyHook(BracketFrom(t, rk, g, x, i, pre, post), pre) == HookOn(WalkFrom(t, rk, g, x, i), pre)
    decreases rk[x], 0, |t[x].children| - i
  {
    if i < |t[x].children| {
      var c := t[x].children[i];
      ChildRank(t, rk, x, c);
      BracketFromOpens(t, rk, g, x, i + 1, pre, post);
      var first := if c in g then Bracket(t, rk, g, c, pre, post) else [];
      OnlyHookAppend(first, BracketFrom(t, rk, g, x, i + 1, pre, post), pre);
      HookOnAppend(if c in g then Walk(t, rk, g, c) else [], WalkFrom(t, rk, g, x, i + 1), pre);
      if c in g {
        BracketOpens(t, rk, g, c, pre, post);
      }
    }
  }

  /** Every hook of a bracketed trace is on a node of the walk. */
  lemma {:induction false} BracketClosers(t: Links, rk: map<Id, nat>, g: set<Id>, x: Id, pre: Hook, post: Hook)
    requires Valid(t, rk) && x in t
    ensures forall e :: e in Bracket(t, rk, g, x, pre, post) ==> e.node in Walk(t, rk, g, x)
    decreases rk[x], 1
  {
    BracketFromClosers(t, rk, g, x, 0, pre, post);
  }

  lemma {:induction false} BracketFromClosers(t: Links, rk: map<Id, nat>, g: set<Id>, x: Id, i: nat, pre: Hook, post: Hook)
    requires Valid(t, rk) && x in t && i <= |t[x].children|
    ensures forall e :: e in BracketFrom(t, rk, g, x, i, pre, post) ==> e.node in WalkFrom(t, rk, g, x, i)
    decreases rk[x], 0, |t[x].children| - i
  {
    if i < |t[x].children| {
      var c := t[x].children[i];
      ChildRank(t, rk, x, c);
      BracketFromClosers(t, rk, g, x, i + 1, pre, post);
      if c in g {
        BracketClosers(t, rk, g, c, pre, post);
      }
    }
  }

  /** The ungated recursion of `setup` and `exit`: hook `h` on `x`, then on
      each child's subtree in order. */
  function Broadcast(t: Links, ghost rk: map<Id, nat>, x: Id, h: Hook): seq<Event>
    requires Valid(t, rk) && x in t
    decreases rk[x], 1
  {
    [Event(x, h)] + BroadcastFrom(t, rk, x, 0, h)
  }

  function BroadcastFrom(t: Links, ghost rk: map<Id, nat>, x: Id, i: nat, h: Hook): seq<Event>
    requires Valid(t, rk) && x in t && i <= |t[x].children|
    decreases rk[x], 0, |t[x].children| - i
  {
    if i == |t[x].children| then []
    else
      var c := t[x].children[i];
      ChildRank(t, rk, x, c);
      Broadcast(t, rk, c, h) + BroadcastFrom(t, rk, x, i + 1, h)
  }

  /** The ungated recursion visits the whole subtree in pre-order: it is
      the walk whose gate admits every node. */
  lemma {:induction false} BroadcastIsWalk(t: Links, rk: map<Id, nat>, x: Id, h: Hook)
    requires Valid(t, rk) && x in t
    ensures Broadcast(t, rk, x, h) == HookOn(Walk(t, rk, t.Keys, x), h)
    decreases rk[x], 1
  {
    BroadcastFromIsWalk(t, rk, x, 0, h);
    HookOnAppend([x], WalkFrom(t, rk, t.Keys, x, 0), h);
  }

  lemma {:induction false} BroadcastFromIsWalk(t: Links, rk: map<Id, nat>, x: Id, i: nat, h: Hook)
    requires Valid(t, rk) && x in t && i <= |t[x].children|
    ensures BroadcastFrom(t, rk, x, i, h) == HookOn(WalkFrom(t, rk, t.Keys, x, i), h)
    decreases rk[x], 0, |t[x].children| - i
  {
    if i < |t[x].children| {
      var c := t[x].children[i];
      ChildRank(t, rk, x, c);
      BroadcastIsWalk(t, rk, c, h);
      BroadcastFromIsWalk(t, rk, x, i + 1, h);
      HookOnAppend(Walk(t, rk, t.Keys, c), WalkFrom(t, rk, t.Keys, x, i + 1), h);
    }
  }

  /** The gated one-hook recursion of `globalActiveChanged`: hook `h` on
      `x`, then on the subtree of each child in `g`, in order; a child
      outside `g` is passed over with its whole subtree. */
  function Notify(t: Links, ghost rk: map<Id, nat>, g: set<Id>, x: Id, h: Hook): seq<Event>
    requires Valid(t, rk) && x in t
    decreases rk[x], 1
  {
    [Event(x, h)] + NotifyFrom(t, rk, g, x, 0, h)
  }

  function NotifyFrom(t: Links, ghost rk: map<Id, nat>, g: set<Id>, x: Id, i: nat, h: Hook): seq<Event>
    requires Valid(t, rk) && x in t && i <= |t[x].children|
    decreases rk[x], 0, |t[x].children| - i
  {
    if i == |t[x].children| then []
    else
      var c := t[x].children[i];
      ChildRank(t, rk, x, c);
      (if c in g then Notify(t, rk, g, c, h) else []) + NotifyFrom(t, rk, g, x, i + 1, h)
  }

  /** The gated recursion notifies exactly the nodes of the gated walk, in
      pre-order. */
  lemma {:induction false} NotifyIsWalk(t: Links, rk: map<Id, nat>, g: set<Id>, x: Id, h: Hook)
    requires Valid(t, rk) && x in t
    ensures Notify(t, rk, g, x, h) == HookOn(Walk(t, rk, g, x), h)
    decreases rk[x], 1
  {
    NotifyFromIsWalk(t, rk, g, x, 0, h);
    HookOnAppend([x], WalkFrom(t, rk, g, x, 0), h);
  }

  lemma {:induction false} NotifyFromIsWalk(t: Links, rk: map<Id, nat>, g: set<Id>, x: Id, i: nat, h: Hook)
    requires Valid(t, rk) && x in t && i <= |t[x].children|
    ensures NotifyFrom(t, rk, g, x, i, h) == HookOn(WalkFrom(t, rk, g, x, i), h)
    decreases rk[x], 0, |t[x].children| - i
  {
    if i < |t[x].children| {
      var c := t[x].children[i];
      ChildRank(t, rk, x, c);
      NotifyFromIsWalk(t, rk, g, x, i + 1, h);
      if c in g {
        NotifyIsWalk(t, rk, g, c, h);
        HookOnAppend(Walk(t, rk, g, c), WalkFrom(t, rk, g, x, i + 1), h);
      }
    }
  }

  /** A hook trace over a list without duplicates calls the hook on each
      node at most once. */
  lemma HookOnNoDup(ids: seq<Id>, h: Hook)
    requires NoDup(ids)
    ensures NoDup(HookOn(ids, h))
  {
    var r := HookOn(ids, h);
    forall i, j | 0 <= i < j < |r| ensures r[i] != r[j] {
      assert r[i].node == ids[i] && r[j].node == ids[j];
    }
  }
}
