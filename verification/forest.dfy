/** The parent/child structure both engine generations keep: every node has
    an optional parent and an ordered child list (index 0 is drawn first,
    the last child is in front). This module states what a well-formed
    hierarchy is, gives the reference "detach, then attach" reparenting that
    both generations' hierarchy edits are proved equal to, and proves once
    that reparenting keeps the hierarchy consistent and acyclic. */
module Forest {
  import opened Common

  datatype Link = Link(parent: Option<Id>, children: seq<Id>)

  /** The hierarchy part of a node store. */
  type Links = map<Id, Link>

  /** A freshly constructed node: no parent, no children. */
  const Unlinked := Link(None, [])

  /** Every parent and child reference names a node of the store. */
  predicate Closed(t: Links)
  {
    forall x :: x in t ==>
      && (t[x].parent.Some? ==> t[x].parent.value in t)
      && (forall c :: c in t[x].children ==> c in t)
  }

  /** Parent references and child lists agree: a listed child points back to
      the list's owner, a node with a parent is listed by it, and no list
      names a child twice. Together: every node with a parent appears in
      exactly one child list, exactly once. */
  predicate Consistent(t: Links)
  {
    && Closed(t)
    && (forall x, c :: x in t && c in t[x].children ==> t[c].parent == Some(x))
    && (forall x :: x in t && t[x].parent.Some? ==> x in t[t[x].parent.value].children)
    && (forall x :: x in t ==> NoDup(t[x].children))
  }

  /** `rk` witnesses that following parent references always terminates:
      every node is ranked strictly below its parent. */
  ghost predicate Ranked(t: Links, rk: map<Id, nat>)
  {
    forall x :: x in t ==>
      && x in rk
      && (t[x].parent.Some? ==> t[x].parent.value in rk && rk[x] < rk[t[x].parent.value])
  }

  /** A consistent, acyclic hierarchy. */
  ghost predicate Valid(t: Links, rk: map<Id, nat>)
  {
    Consistent(t) && Ranked(t, rk)
  }

  lemma ChildRank(t: Links, rk: map<Id, nat>, x: Id, c: Id)
    requires Valid(t, rk) && x in t && c in t[x].children
    ensures c in t && c in rk && x in rk && rk[c] < rk[x]
  {
  }

  /** The ids ranked above `k`; it shrinks strictly when a parent reference
      is followed. */
  ghost function Above(rk: map<Id, nat>, k: nat): set<Id>
  {
    set y | y in rk && rk[y] > k
  }

  lemma AboveShrinks(rk: map<Id, nat>, x: Id, p: Id)
    requires x in rk && p in rk && rk[x] < rk[p]
    ensures Above(rk, rk[p]) < Above(rk, rk[x])
  {
    assert p in Above(rk, rk[x]) && p !in Above(rk, rk[p]);
  }

  /** `a` is `x` or one of its ancestors. */
  ghost predicate Anc(t: Links, rk: map<Id, nat>, x: Id, a: Id)
    requires Closed(t) && Ranked(t, rk) && x in t
    decreases Above(rk, rk[x])
  {
    x == a || (t[x].parent.Some? && (AboveShrinks(rk, x, t[x].parent.value); Anc(t, rk, t[x].parent.value, a)))
  }

  /** `a` is `x`, or `x` lies below `a` through nodes that are all in `gate`
      (`x` included, `a` not). */
  ghost predicate Within(t: Links, rk: map<Id, nat>, gate: set<Id>, x: Id, a: Id)
    requires Closed(t) && Ranked(t, rk) && x in t
    decreases Above(rk, rk[x])
  {
    x == a ||
    (x in gate && t[x].parent.Some? && (AboveShrinks(rk, x, t[x].parent.value); Within(t, rk, gate, t[x].parent.value, a)))
  }

  lemma {:induction false} AncRank(t: Links, rk: map<Id, nat>, x: Id, a: Id)
    requires Closed(t) && Ranked(t, rk) && x in t && Anc(t, rk, x, a)
    ensures a in t && rk[x] <= rk[a]
    decreases Above(rk, rk[x])
  {
    if x != a {
      var p := t[x].parent.value;
      AboveShrinks(rk, x, p);
      AncRank(t, rk, p, a);
    }
  }

  lemma {:induction false} WithinAnc(t: Links, rk: map<Id, nat>, gate: set<Id>, x: Id, a: Id)
    requires Closed(t) && Ranked(t, rk) && x in t && Within(t, rk, gate, x, a)
    ensures Anc(t, rk, x, a)
    decreases Above(rk, rk[x])
  {
    if x != a {
      var p := t[x].parent.value;
      AboveShrinks(rk, x, p);
      WithinAnc(t, rk, gate, p, a);
    }
  }

  /** Extending a gated path by one gated child. */
  lemma {:induction false} WithinStep(t: Links, rk: map<Id, nat>, gate: set<Id>, x: Id, c: Id, a: Id)
    requires Closed(t) && Ranked(t, rk) && x in t
    requires Within(t, rk, gate, x, c) && c in t && c in gate && t[c].parent == Some(a)
    ensures Within(t, rk, gate, x, a)
    decreases Above(rk, rk[x])
  {
    if x != c {
      var p := t[x].parent.value;
      AboveShrinks(rk, x, p);
      WithinStep(t, rk, gate, p, c, a);
    }
  }

  /** A gated path down from `a` consults the gate only below `a`: two
      gates that agree on `a`'s subtree give the same paths. */
  lemma {:induction false} WithinCongruent(t: Links, rk: map<Id, nat>, g1: set<Id>, g2: set<Id>, x: Id, a: Id)
    requires Closed(t) && Ranked(t, rk) && x in t && Anc(t, rk, x, a)
    requires forall z :: z in t && Anc(t, rk, z, a) ==> (z in g1 <==> z in g2)
    ensures Within(t, rk, g1, x, a) == Within(t, rk, g2, x, a)
    decreases Above(rk, rk[x])
  {
    if x != a {
      var p := t[x].parent.value;
      AboveShrinks(rk, x, p);
      WithinCongruent(t, rk, g1, g2, p, a);
    }
  }

  /** Two distinct siblings have no common descendant: descendants of
      different children of a node lie in disjoint subtrees. */
  lemma {:induction false} AncUnique(t: Links, rk: map<Id, nat>, x: Id, a: Id, b: Id, p: Id)
    requires Closed(t) && Ranked(t, rk) && x in t
    requires Anc(t, rk, x, a) && Anc(t, rk, x, b)
    requires a in t && b in t && t[a].parent == Some(p) && t[b].parent == Some(p)
    ensures a == b
    decreases Above(rk, rk[x])
  {
    if x == a {
      if a != b {
        AncRank(t, rk, p, b);
      }
    } else if x == b {
      AncRank(t, rk, p, a);
    } else {
      var q := t[x].parent.value;
      AboveShrinks(rk, x, q);
      AncUnique(t, rk, q, a, b, p);
    }
  }

  // ---------------------------------------------------------------------
  // Gated pre-order walks

  /** The nodes a pre-order traversal from `x` enters when it descends into
      a child only if that child is in `gate`: `x` first, then the walks of
      the gated children in child order. */
  ghost function Walk(t: Links, rk: map<Id, nat>, gate: set<Id>, x: Id): seq<Id>
    requires Valid(t, rk) && x in t
    decreases rk[x], 1
  {
    [x] + WalkFrom(t, rk, gate, x, 0)
  }

  /** The walks of the gated children of `x` from position `i` on. */
  ghost function WalkFrom(t: Links, rk: map<Id, nat>, gate: set<Id>, x: Id, i: nat): seq<Id>
    requires Valid(t, rk) && x in t && i <= |t[x].children|
    decreases rk[x], 0, |t[x].children| - i
  {
    if i == |t[x].children| then []
    else
      var c := t[x].children[i];
      (if c in gate then Walk(t, rk, gate, c) else []) + WalkFrom(t, rk, gate, x, i + 1)
  }

  /** Everything a walk from `x` enters lies within the gated subtree of `x`. */
  lemma {:induction false} WalkSound(t: Links, rk: map<Id, nat>, gate: set<Id>, x: Id)
    requires Valid(t, rk) && x in t
    ensures forall y :: y in Walk(t, rk, gate, x) ==> y in t && Within(t, rk, gate, y, x)
    decreases rk[x], 1
  {
    WalkFromSound(t, rk, gate, x, 0);
  }

  lemma {:induction false} WalkFromSound(t: Links, rk: map<Id, nat>, gate: set<Id>, x: Id, i: nat)
    requires Valid(t, rk) && x in t && i <= |t[x].children|
    ensures forall y :: y in WalkFrom(t, rk, gate, x, i) ==>
      y in t && Within(t, rk, gate, y, x) && exists j :: i <= j < |t[x].children| && Anc(t, rk, y, t[x].children[j])
    decreases rk[x], 0, |t[x].children| - i
  {
    if i < |t[x].children| {
      var c := t[x].children[i];
      ChildRank(t, rk, x, c);
      if c in gate {
        WalkSound(t, rk, gate, c);
        forall y | y in Walk(t, rk, gate, c)
          ensures Within(t, rk, gate, y, x) && Anc(t, rk, y, c)
        {
          WithinStep(t, rk, gate, y, c, x);
          WithinAnc(t, rk, gate, y, c);
        }
      }
      WalkFromSound(t, rk, gate, x, i + 1);
    }
  }

  lemma {:induction false} WalkFromContains(t: Links, rk: map<Id, nat>, gate: set<Id>, x: Id, i: nat, j: nat)
    requires Valid(t, rk) && x in t && i <= j < |t[x].children| && t[x].children[j] in gate
    ensures (ChildRank(t, rk, x, t[x].children[j]);
             forall y :: y in Walk(t, rk, gate, t[x].children[j]) ==> y in WalkFrom(t, rk, gate, x, i))
    decreases |t[x].children| - i
  {
    ChildRank(t, rk, x, t[x].children[j]);
    if i < j {
      WalkFromContains(t, rk, gate, x, i + 1, j);
    }
  }

  /** A gated path from `x` down to `y` passes through a gated child of `x`. */
  lemma {:induction false} WithinChild(t: Links, rk: map<Id, nat>, gate: set<Id>, y: Id, x: Id)
    requires Valid(t, rk) && y in t && x in t && Within(t, rk, gate, y, x) && y != x
    ensures exists j :: (0 <= j < |t[x].children| && t[x].children[j] in gate
      && Within(t, rk, gate, y, t[x].children[j]))
    decreases Above(rk, rk[y])
  {
    var p := t[y].parent.value;
    AboveShrinks(rk, y, p);
    if p == x {
      var j := IndexOf(t[x].children, y);
      assert t[x].children[j] == y;
    } else {
      WithinChild(t, rk, gate, p, x);
      var j :| 0 <= j < |t[x].children| && t[x].children[j] in gate && Within(t, rk, gate, p, t[x].children[j]);
      assert Within(t, rk, gate, y, t[x].children[j]);
    }
  }

  /** The walk from `x` enters exactly the nodes reachable from `x` through
      gated children. */
  lemma {:induction false} WalkComplete(t: Links, rk: map<Id, nat>, gate: set<Id>, x: Id)
    requires Valid(t, rk) && x in t
    ensures forall y :: y in t ==> (y in Walk(t, rk, gate, x) <==> Within(t, rk, gate, y, x))
    decreases rk[x]
  {
    WalkSound(t, rk, gate, x);
    forall y | y in t && Within(t, rk, gate, y, x) && y != x
      ensures y in Walk(t, rk, gate, x)
    {
      WithinChild(t, rk, gate, y, x);
      var j :| 0 <= j < |t[x].children| && t[x].children[j] in gate && Within(t, rk, gate, y, t[x].children[j]);
      var c := t[x].children[j];
      ChildRank(t, rk, x, c);
      WalkComplete(t, rk, gate, c);
      WalkFromContains(t, rk, gate, x, 0, j);
    }
  }

  /** An ancestor of a node's parent is an ancestor of the node. */
  lemma {:induction false} AncStep(t: Links, rk: map<Id, nat>, y: Id, c: Id, x: Id)
    requires Closed(t) && Ranked(t, rk) && y in t && c in t
    requires Anc(t, rk, y, c) && t[c].parent == Some(x)
    ensures Anc(t, rk, y, x)
    decreases Above(rk, rk[y])
  {
    if y != c {
      var p := t[y].parent.value;
      AboveShrinks(rk, y, p);
      AncStep(t, rk, p, c, x);
    }
  }

  /** Being an ancestor is transitive. */
  lemma {:induction false} AncTrans(t: Links, rk: map<Id, nat>, x: Id, a: Id, b: Id)
    requires Closed(t) && Ranked(t, rk) && x in t && a in t
    requires Anc(t, rk, x, a) && Anc(t, rk, a, b)
    ensures Anc(t, rk, x, b)
    decreases Above(rk, rk[x])
  {
    if x != a {
      var p := t[x].parent.value;
      AboveShrinks(rk, x, p);
      AncTrans(t, rk, p, a, b);
    }
  }

  /** `a` is an ancestor of `b` and `b` of `a` only when they are the same. */
  lemma {:induction false} AncAntisymmetric(t: Links, rk: map<Id, nat>, a: Id, b: Id)
    requires Closed(t) && Ranked(t, rk) && a in t && b in t && Anc(t, rk, a, b) && Anc(t, rk, b, a)
    ensures a == b
  {
    if a != b {
      var p := t[a].parent.value;
      AncRank(t, rk, p, b);
      AncRank(t, rk, b, a);
    }
  }

  /** A node reached from `r` through gated nodes has every ancestor strictly
      below `r` in the gate. */
  lemma {:induction false} WithinThrough(t: Links, rk: map<Id, nat>, g: set<Id>, y: Id, x: Id, r: Id)
    requires Closed(t) && Ranked(t, rk) && y in t && x in t && r in t
    requires Within(t, rk, g, y, r) && Anc(t, rk, y, x) && Anc(t, rk, x, r)
    ensures x == r || x in g
    decreases Above(rk, rk[y])
  {
    if y == r {
      AncAntisymmetric(t, rk, x, r);
    } else if y != x {
      var p := t[y].parent.value;
      AboveShrinks(rk, y, p);
      WithinThrough(t, rk, g, p, x, r);
    }
  }

  /** Apart from its root, a walk enters gated nodes only. */
  lemma WalkGated(t: Links, rk: map<Id, nat>, gate: set<Id>, x: Id)
    requires Valid(t, rk) && x in t
    ensures forall y :: y in Walk(t, rk, gate, x) ==> y == x || y in gate
  {
    WalkSound(t, rk, gate, x);
  }

  /** When the whole subtree of `a` is in `gate`, every node of that subtree
      lies within `a` through gated nodes. */
  lemma {:induction false} AncWithin(t: Links, rk: map<Id, nat>, gate: set<Id>, y: Id, a: Id)
    requires Closed(t) && Ranked(t, rk) && y in t && Anc(t, rk, y, a)
    requires forall z :: z in t && Anc(t, rk, z, a) ==> z in gate
    ensures Within(t, rk, gate, y, a)
    decreases Above(rk, rk[y])
  {
    if y != a {
      var p := t[y].parent.value;
      AboveShrinks(rk, y, p);
      AncWithin(t, rk, gate, p, a);
    }
  }

  /** A walk from `x` consults the gate only inside `x`'s subtree. */
  lemma {:induction false} WalkCongruent(t: Links, rk: map<Id, nat>, g1: set<Id>, g2: set<Id>, x: Id)
    requires Valid(t, rk) && x in t
    requires forall y :: y in t && Anc(t, rk, y, x) ==> (y in g1 <==> y in g2)
    ensures Walk(t, rk, g1, x) == Walk(t, rk, g2, x)
    decreases rk[x], 1
  {
    forall j, y | 0 <= j < |t[x].children| && y in t && Anc(t, rk, y, t[x].children[j])
      ensures y in g1 <==> y in g2
    {
      AncStep(t, rk, y, t[x].children[j], x);
    }
    WalkFromCongruent(t, rk, g1, g2, x, 0);
  }

  lemma {:induction false} WalkFromCongruent(t: Links, rk: map<Id, nat>, g1: set<Id>, g2: set<Id>, x: Id, i: nat)
    requires Valid(t, rk) && x in t && i <= |t[x].children|
    requires forall j, y :: i <= j < |t[x].children| && y in t && Anc(t, rk, y, t[x].children[j]) ==>
      (y in g1 <==> y in g2)
    ensures WalkFrom(t, rk, g1, x, i) == WalkFrom(t, rk, g2, x, i)
    decreases rk[x], 0, |t[x].children| - i
  {
    if i < |t[x].children| {
      var c := t[x].children[i];
      ChildRank(t, rk, x, c);
      assert c in g1 <==> c in g2;
      WalkCongruent(t, rk, g1, g2, c);
      WalkFromCongruent(t, rk, g1, g2, x, i + 1);
    }
  }

  /** Walks from different children of one node are disjoint: whatever the
      walk from child `i` enters lies outside the subtree of any other child. */
  lemma SiblingWalksDisjoint(t: Links, rk: map<Id, nat>, g: set<Id>, x: Id, i: nat, j: nat, y: Id)
    requires Valid(t, rk) && x in t && i < |t[x].children| && j < |t[x].children| && i != j
    requires (ChildRank(t, rk, x, t[x].children[i]); y in Walk(t, rk, g, t[x].children[i]))
    ensures y in t && !Anc(t, rk, y, t[x].children[j])
  {
    var ci := t[x].children[i];
    var cj := t[x].children[j];
    ChildRank(t, rk, x, ci);
    ChildRank(t, rk, x, cj);
    WalkSound(t, rk, g, ci);
    WithinAnc(t, rk, g, y, ci);
    if Anc(t, rk, y, cj) {
      AncUnique(t, rk, y, ci, cj, x);
      assert false;
    }
  }

  lemma NoDupAppend<T>(a: seq<T>, b: seq<T>)
    requires NoDup(a) && NoDup(b) && forall y :: y in a ==> y !in b
    ensures NoDup(a + b)
  {
    forall i, j | 0 <= i < j < |a + b| ensures (a + b)[i] != (a + b)[j] {
      if j >= |a| && i < |a| {
        assert (a + b)[i] in a && (a + b)[j] in b;
      }
    }
  }

  /** A walk enters every node at most once. */
  lemma {:induction false} WalkNoDup(t: Links, rk: map<Id, nat>, gate: set<Id>, x: Id)
    requires Valid(t, rk) && x in t
    ensures NoDup(Walk(t, rk, gate, x))
    decreases rk[x], 1
  {
    WalkFromNoDup(t, rk, gate, x, 0);
    WalkFromSound(t, rk, gate, x, 0);
    forall y | y in WalkFrom(t, rk, gate, x, 0) ensures y != x {
      var j :| 0 <= j < |t[x].children| && Anc(t, rk, y, t[x].children[j]);
      ChildRank(t, rk, x, t[x].children[j]);
      AncRank(t, rk, y, t[x].children[j]);
    }
    NoDupAppend([x], WalkFrom(t, rk, gate, x, 0));
  }

  /** A walk does not come back to its root. */
  lemma RootNotBelow(t: Links, rk: map<Id, nat>, g: set<Id>, x: Id)
    requires Valid(t, rk) && x in t
    ensures x !in WalkFrom(t, rk, g, x, 0)
  {
    WalkNoDup(t, rk, g, x);
    var s := WalkFrom(t, rk, g, x, 0);
    var ws := Walk(t, rk, g, x);
    assert ws == [x] + s;
    forall k | 0 <= k < |s| ensures s[k] != x {
      assert s[k] == ws[k + 1] && ws[0] == x;
    }
  }

  lemma {:induction false} WalkFromNoDup(t: Links, rk: map<Id, nat>, gate: set<Id>, x: Id, i: nat)
    requires Valid(t, rk) && x in t && i <= |t[x].children|
    ensures NoDup(WalkFrom(t, rk, gate, x, i))
    decreases rk[x], 0, |t[x].children| - i
  {
    if i < |t[x].children| {
      var c := t[x].children[i];
      ChildRank(t, rk, x, c);
      WalkFromNoDup(t, rk, gate, x, i + 1);
      if c in gate {
        WalkNoDup(t, rk, gate, c);
        WalkSound(t, rk, gate, c);
        WalkFromSound(t, rk, gate, x, i + 1);
        forall y | y in Walk(t, rk, gate, c) ensures y !in WalkFrom(t, rk, gate, x, i + 1) {
          WithinAnc(t, rk, gate, y, c);
          if y in WalkFrom(t, rk, gate, x, i + 1) {
            var j :| i + 1 <= j < |t[x].children| && Anc(t, rk, y, t[x].children[j]);
            AncUnique(t, rk, y, c, t[x].children[j], x);
            assert false;
          }
        }
        NoDupAppend(Walk(t, rk, gate, c), WalkFrom(t, rk, gate, x, i + 1));
      }
    }
  }

  /** A newly constructed node joins the store with no parent and no
      children (the same in both generations). */
  function AddNode(t: Links, x: Id): (r: Links)
    requires x !in t
    ensures r.Keys == t.Keys + {x}
    ensures r[x].parent == None && r[x].children == []
    ensures forall y :: y in t ==> r[y] == t[y]
  {
    t[x := Unlinked]
  }

  /** Adding a new node keeps the hierarchy consistent and acyclic, with the
      new node ranked at the bottom. */
  lemma AddNodeSound(t: Links, rk: map<Id, nat>, x: Id)
    requires Valid(t, rk) && x !in t
    ensures Valid(AddNode(t, x), rk[x := 0])
  {
    var r := AddNode(t, x);
    forall y | y in t
      ensures x !in t[y].children && t[y].parent != Some(x)
    {
    }
  }

  /** `p.getChild(i)`, the same in both generations: the `i`-th child, or nothing when `i` is out of range. */
  function GetChild(t: Links, p: Id, i: int): (r: Option<Id>)
    requires p in t
    ensures r.Some? <==> 0 <= i < |t[p].children|
    ensures r.Some? ==> r.value in t[p].children
    ensures r.Some? ==> 0 <= i < |t[p].children| && r.value == t[p].children[i]
  {
    if i < 0 || |t[p].children| <= i then None else Some(t[p].children[i])
  }

  /** On consistent links every child `getChild` returns points back. */
  lemma GetChildParent(t: Links, p: Id, i: int)
    requires Consistent(t) && p in t && GetChild(t, p, i).Some?
    ensures GetChild(t, p, i).value in t
    ensures t[GetChild(t, p, i).value].parent == Some(p)
  {
    var c := GetChild(t, p, i).value;
    assert c in t[p].children;
    assert c in t;
  }

  // ---------------------------------------------------------------------
  // Reference reparenting

  /** Take `c` out of its parent's child list (first occurrence) and clear
      its parent reference. */
  function Detach(t: Links, c: Id): (r: Links)
    requires Closed(t) && c in t
    ensures r.Keys == t.Keys
  {
    match t[c].parent
    case None => t
    case Some(q) =>
      var t1 := t[c := t[c].(parent := None)];
      t1[q := t1[q].(children := RemoveFirst(t1[q].children, c))]
  }

  /** Put `c` into `p`'s child list at the position `index` selects and make
      `p` its parent. */
  function Attach(t: Links, p: Id, c: Id, index: int): (r: Links)
    requires p in t && c in t
    ensures r.Keys == t.Keys
  {
    var t1 := t[p := t[p].(children := InsertAt(t[p].children, index, c))];
    t1[c := t1[c].(parent := Some(p))]
  }

  /** Reparenting as one atomic step: detach, then attach. */
  function Reparent(t: Links, c: Id, p: Id, index: int): (r: Links)
    requires Closed(t) && c in t && p in t
    ensures r.Keys == t.Keys
  {
    Attach(Detach(t, c), p, c, index)
  }

  /** What detaching changes: `c` loses its parent reference and the old
      parent `q` loses `c` from its list; no other node changes. */
  lemma DetachShape(t: Links, rk: map<Id, nat>, c: Id)
    requires Valid(t, rk) && c in t && t[c].parent.Some?
    ensures var q := t[c].parent.value; var r := Detach(t, c);
      && q != c
      && r[c] == t[c].(parent := None)
      && r[q] == t[q].(children := RemoveFirst(t[q].children, c))
      && (forall x :: x in t && x != c && x != q ==> r[x] == t[x])
  {
    assert rk[c] < rk[t[c].parent.value];
  }

  /** Detaching leaves a consistent hierarchy in which `c` is parentless and
      listed nowhere; only `c` and its old parent's list change, and the old
      parent loses exactly `c`. */
  lemma DetachSound(t: Links, rk: map<Id, nat>, c: Id)
    requires Valid(t, rk) && c in t
    ensures Valid(Detach(t, c), rk)
    ensures Detach(t, c)[c] == t[c].(parent := None)
    ensures forall x :: x in t ==> c !in Detach(t, c)[x].children
    ensures forall x :: x in t && x != c && Some(x) != t[c].parent ==> Detach(t, c)[x] == t[x]
    ensures t[c].parent.Some? ==>
      Detach(t, c)[t[c].parent.value] == t[t[c].parent.value].(children := RemoveFirst(t[t[c].parent.value].children, c))
  {
    if t[c].parent.Some? {
      var q := t[c].parent.value;
      var r := Detach(t, c);
      DetachShape(t, rk, c);
      UnlinkConsistent(t, r, q, c);
      forall x | x in r && r[x].parent.Some? ensures rk[x] < rk[r[x].parent.value] {
        assert x != c;
      }
    }
  }

  /** Clearing `c`'s parent `q` and dropping `c` from `q`'s list, with
      everything else unchanged, keeps a consistent hierarchy consistent and
      leaves `c` listed nowhere. */
  lemma UnlinkConsistent(t: Links, r: Links, q: Id, c: Id)
    requires Consistent(t) && c in t && t[c].parent == Some(q) && q != c
    requires r.Keys == t.Keys
    requires r[c] == t[c].(parent := None)
    requires r[q] == t[q].(children := RemoveFirst(t[q].children, c))
    requires forall x :: x in t && x != c && x != q ==> r[x] == t[x]
    ensures Consistent(r)
    ensures forall x :: x in t ==> c !in r[x].children
  {
    RemoveFirstNoDup(t[q].children, c);
    forall x | x in r ensures c !in r[x].children {
      if x != q {
        assert r[x].children == t[x].children;
        assert t[c].parent != Some(x);
      }
    }
    forall x | x in r ensures forall y :: y in r[x].children ==> y in t[x].children && y != c {
    }
    assert Closed(r);
    forall x, y | x in r && y in r[x].children ensures r[y].parent == Some(x) {
      assert y in t[x].children && y != c;
      assert t[y].parent == Some(x);
    }
    forall x | x in r && r[x].parent.Some? ensures x in r[r[x].parent.value].children {
      assert x != c;
      var p := t[x].parent.value;
      assert x in t[p].children;
    }
    forall x | x in r ensures NoDup(r[x].children) {
      if x != q { assert r[x].children == t[x].children; }
    }
  }

  /** Attaching a parentless, unlisted node keeps the hierarchy consistent. */
  lemma AttachConsistent(t: Links, p: Id, c: Id, index: int)
    requires Consistent(t) && p in t && c in t && t[c].parent == None && p != c
    ensures Consistent(Attach(t, p, c, index))
    ensures Attach(t, p, c, index)[c] == t[c].(parent := Some(p))
    ensures Attach(t, p, c, index)[p] == t[p].(children := InsertAt(t[p].children, index, c))
    ensures forall x :: x in t && x != c && x != p ==> Attach(t, p, c, index)[x] == t[x]
  {
    var r := Attach(t, p, c, index);
    assert r[c] == t[c].(parent := Some(p));
    assert r[p] == t[p].(children := InsertAt(t[p].children, index, c));
    assert forall x :: x in t && x != c && x != p ==> r[x] == t[x];
    InsertAtNoDup(t[p].children, index, c);
    assert Closed(r);
    forall x, y | x in r && y in r[x].children ensures r[y].parent == Some(x) {
      if x != p {
        assert y in t[x].children;
        assert y != c;
      } else if y != c {
        assert y in t[p].children;
      }
    }
    forall x | x in r && r[x].parent.Some? ensures x in r[r[x].parent.value].children {
      if x != c {
        var q := t[x].parent.value;
        assert x in t[q].children;
      }
    }
    forall x | x in r ensures NoDup(r[x].children) {
      if x != p { assert r[x].children == t[x].children; }
    }
  }

  /** The ranking after reparenting `c`: `c`'s subtree keeps its ranks,
      every other node moves above all of them. */
  ghost function Rerank(t: Links, rk: map<Id, nat>, c: Id): (r: map<Id, nat>)
    requires Closed(t) && Ranked(t, rk) && c in t
    ensures r.Keys == t.Keys
  {
    map x | x in t :: if Anc(t, rk, x, c) then rk[x] else rk[x] + rk[c] + 1
  }

  lemma AttachRanked(t: Links, rk: map<Id, nat>, p: Id, c: Id, index: int)
    requires Closed(t) && Ranked(t, rk) && p in t && c in t && t[c].parent == None
    requires !Anc(t, rk, p, c)
    ensures Ranked(Attach(t, p, c, index), Rerank(t, rk, c))
  {
    var r := Attach(t, p, c, index);
    var rk' := Rerank(t, rk, c);
    forall x | x in r && r[x].parent.Some?
      ensures r[x].parent.value in rk' && rk'[x] < rk'[r[x].parent.value]
    {
      if x != c {
        var q := t[x].parent.value;
        assert Anc(t, rk, x, c) == Anc(t, rk, q, c);
      }
    }
  }

  /** Detaching `c` does not make it an ancestor of a node it was not an
      ancestor of. */
  lemma {:induction false} DetachKeepsNonAnc(t: Links, rk: map<Id, nat>, p: Id, c: Id)
    requires Valid(t, rk) && p in t && c in t && !Anc(t, rk, p, c)
    ensures (DetachSound(t, rk, c); !Anc(Detach(t, c), rk, p, c))
    decreases Above(rk, rk[p])
  {
    DetachSound(t, rk, c);
    var d := Detach(t, c);
    assert d[p].parent == t[p].parent;
    if d[p].parent.Some? {
      var q := t[p].parent.value;
      AboveShrinks(rk, p, q);
      DetachKeepsNonAnc(t, rk, q, c);
    }
  }

  /** Reparenting `c` under `p` keeps the hierarchy consistent and, when `c`
      is neither `p` nor an ancestor of `p`, acyclic. Afterwards `c`
      appears exactly once in `p`'s list, at the position `index` selects,
      and in no other list. */
  lemma ReparentSound(t: Links, rk: map<Id, nat>, c: Id, p: Id, index: int)
    requires Valid(t, rk) && c in t && p in t && !Anc(t, rk, p, c)
    ensures (DetachSound(t, rk, c);
      var d := Detach(t, c);
      var r := Reparent(t, c, p, index);
      && Valid(r, Rerank(d, rk, c))
      && r[c].parent == Some(p)
      && r[c].children == t[c].children
      && r[p].children == InsertAt(d[p].children, index, c)
      && Count(r[p].children, c) == 1
      && (forall x :: x in r && x != p ==> c !in r[x].children))
  {
    DetachSound(t, rk, c);
    var d := Detach(t, c);
    DetachKeepsNonAnc(t, rk, p, c);
    AttachConsistent(d, p, c, index);
    AttachRanked(d, rk, p, c, index);
    var r := Reparent(t, c, p, index);
    CountNoDup(r[p].children, c);
  }

  /** Attaching `c` under `p` in `d`, where `d` is `t` with `c` taken out of
      its old parent's list, read against `t`. Pure map algebra. */
  lemma AttachAfterDetach(t: Links, d: Links, c: Id, p: Id, index: int)
    requires Closed(t) && c in t && p in t && p != c && d.Keys == t.Keys
    requires t[c].parent != Some(p) && t[c].parent != Some(c)
    requires d[c] == t[c].(parent := None) && d[p] == t[p]
    requires forall x :: x in t ==> c !in d[x].children
    requires forall x :: x in t && x != c && Some(x) != t[c].parent ==> d[x] == t[x]
    requires t[c].parent.Some? ==>
      d[t[c].parent.value].children == RemoveFirst(t[t[c].parent.value].children, c)
    ensures Attach(d, p, c, index)[c] == t[c].(parent := Some(p))
    ensures Attach(d, p, c, index)[p].children == InsertAt(t[p].children, index, c)
    ensures forall x :: x in t && x != p ==> c !in Attach(d, p, c, index)[x].children
    ensures t[c].parent.Some? ==>
      Attach(d, p, c, index)[t[c].parent.value].children == RemoveFirst(t[t[c].parent.value].children, c)
    ensures forall x :: x in t && x != c && x != p && Some(x) != t[c].parent ==> Attach(d, p, c, index)[x] == t[x]
  {
  }

  /** Reparenting `c` from its current parent to a different parent `p`,
      stated against the hierarchy before the move: `c` points at `p` and
      keeps its own children, `p`'s list gains `c` at the position `index`
      selects, the old parent's list loses exactly `c`, no list other than
      `p`'s names `c`, no other node changes, and the result is again
      consistent and acyclic. */
  lemma ReparentMoves(t: Links, rk: map<Id, nat>, c: Id, p: Id, index: int)
    requires Valid(t, rk) && c in t && p in t && !Anc(t, rk, p, c) && t[c].parent != Some(p)
    ensures Reparent(t, c, p, index)[c] == t[c].(parent := Some(p))
    ensures Reparent(t, c, p, index)[p].children == InsertAt(t[p].children, index, c)
    ensures forall x :: x in t && x != p ==> c !in Reparent(t, c, p, index)[x].children
    ensures t[c].parent.Some? ==>
      Reparent(t, c, p, index)[t[c].parent.value].children == RemoveFirst(t[t[c].parent.value].children, c)
    ensures forall x :: x in t && x != c && x != p && Some(x) != t[c].parent ==> Reparent(t, c, p, index)[x] == t[x]
    ensures exists rk' :: Valid(Reparent(t, c, p, index), rk')
  {
    var d := Detach(t, c);
    assert p != c;
    DetachSound(t, rk, c);
    assert d[p] == t[p] by {
      if t[c].parent.Some? {
        assert t[c].parent.value != p;
      }
    }
    assert t[c].parent != Some(c) by {
      if t[c].parent.Some? {
        assert rk[c] < rk[t[c].parent.value];
      }
    }
    AttachAfterDetach(t, d, c, p, index);
    ReparentSound(t, rk, c, p, index);
  }
}
