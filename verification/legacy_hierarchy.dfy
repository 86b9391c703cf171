/** Hierarchy edits of the legacy engine (`Component`, raw pointers). The
    insert / set-parent / add recursion has the same shape as the current
    engine's, but detaching differs: `removeChild` erases the entry first and
    then calls the child's `removeParent`, which calls `removeChild` on the
    parent again before clearing the reference. The lemmas prove that on a
    consistent acyclic hierarchy this recursion, too, settles on the
    reference reparenting of `Forest`. */
module LegacyHierarchy {
  import opened Common
  import opened Forest

  /** How many of the two links between `c` and `p` are still missing. */
  function Pending(t: Links, c: Id, p: Id): nat
    requires c in t && p in t
  {
    (if c in t[p].children then 0 else 1) + (if t[c].parent == Some(p) then 0 else 1)
  }

  /** `p->removeChild(c)`: erase the first listing of `c`, then call
      `c->removeParent()`. Only meaningful when a listed `c` points back at
      `p` (otherwise the source would unlist it from some other parent). */
  function RemoveChild(t: Links, p: Id, c: Id): (r: Links)
    requires Closed(t) && p in t && c in t
    requires c in t[p].children ==> t[c].parent == Some(p)
    ensures r.Keys == t.Keys && Closed(r)
    ensures forall x :: x in t && x != p ==> r[x].children == t[x].children
    ensures forall x :: x in t && x != c ==> r[x].parent == t[x].parent
    decreases Count(t[p].children, c), 1
  {
    if c in t[p].children then
      var t1 := t[p := t[p].(children := RemoveFirst(t[p].children, c))];
      assert Count(t1[p].children, c) < Count(t[p].children, c) by {
        RemoveFirstCount(t[p].children, c);
      }
      RemoveParent(t1, c)
    else t
  }

  /** `c->removeParent()`: ask the parent to unlist `c` (the reference is
      still set during that call), then clear the reference. */
  function RemoveParent(t: Links, c: Id): (r: Links)
    requires Closed(t) && c in t
    ensures r.Keys == t.Keys && Closed(r)
    ensures r[c].parent == None
    ensures forall x :: x in t && Some(x) != t[c].parent ==> r[x].children == t[x].children
    ensures forall x :: x in t && x != c ==> r[x].parent == t[x].parent
    decreases if t[c].parent.Some? then Count(t[t[c].parent.value].children, c) else 0, 2
  {
    match t[c].parent
    case None => t
    case Some(p) =>
      var t1 := RemoveChild(t, p, c);
      t1[c := t1[c].(parent := None)]
  }

  /** `c->setParent(np)`: nothing when `np` is already the parent;
      otherwise the old parent unlists `c`, the reference is set, and the
      new parent (if any) appends `c`. */
  function SetParent(t: Links, c: Id, np: Option<Id>): (r: Links)
    requires Closed(t) && c in t && (np.Some? ==> np.value in t)
    ensures r.Keys == t.Keys && Closed(r)
    decreases if np.Some? then Pending(t, c, np.value) else 0, 0
  {
    if t[c].parent == np then t
    else
      var t1 := if t[c].parent.Some? then RemoveChild(t, t[c].parent.value, c) else t;
      var t2 := t1[c := t1[c].(parent := np)];
      match np
      case None => t2
      case Some(p) => AddChild(t2, p, c)
  }

  /** `p->addChild(c)`: insert at the back. */
  function AddChild(t: Links, p: Id, c: Id): (r: Links)
    requires Closed(t) && p in t && c in t
    ensures r.Keys == t.Keys && Closed(r)
    decreases Pending(t, c, p), 2
  {
    InsertChild(t, p, c, |t[p].children|)
  }

  /** `p->insertChild(c, index)`: when `c` is not yet listed, put it at the
      position `index` selects and call `c->setParent(p)`. As in the current
      engine the position is the intended one; see `InsertPositionAsWritten`. */
  function InsertChild(t: Links, p: Id, c: Id, index: int): (r: Links)
    requires Closed(t) && p in t && c in t
    ensures r.Keys == t.Keys && Closed(r)
    decreases Pending(t, c, p), 1
  {
    if c in t[p].children then t
    else
      var t1 := t[p := t[p].(children := InsertAt(t[p].children, index, c))];
      SetParent(t1, c, Some(p))
  }

  // ---------------------------------------------------------------------
  // One round of each recursion

  /** `removeChild` of a child `p` does not list changes nothing. */
  lemma RemoveChildUnlisted(t: Links, p: Id, c: Id)
    requires Closed(t) && p in t && c in t && c !in t[p].children
    ensures RemoveChild(t, p, c) == t
  {
  }

  /** `removeChild` of a child listed once that points back: the entry goes,
      then the nested `removeParent` finds nothing more to erase and clears
      the reference. */
  lemma RemoveChildOnce(t: Links, p: Id, c: Id)
    requires Closed(t) && p in t && c in t && c in t[p].children && t[c].parent == Some(p)
    requires c !in RemoveFirst(t[p].children, c)
    ensures var t1 := t[p := t[p].(children := RemoveFirst(t[p].children, c))];
      RemoveChild(t, p, c) == t1[c := t1[c].(parent := None)]
  {
    var t1 := t[p := t[p].(children := RemoveFirst(t[p].children, c))];
    RemoveChildUnlisted(t1, p, c);
  }

  /** A node already pointing at `p` is left alone by `setParent`. */
  lemma SetParentSame(t: Links, c: Id, p: Id)
    requires Closed(t) && c in t && p in t && t[c].parent == Some(p)
    ensures SetParent(t, c, Some(p)) == t
  {
  }

  /** A listed child is left alone by `insertChild` and `addChild`. */
  lemma InsertChildListed(t: Links, p: Id, c: Id, index: int)
    requires Closed(t) && p in t && c in t && c in t[p].children
    ensures InsertChild(t, p, c, index) == t
    ensures AddChild(t, p, c) == t
  {
  }

  /** `setParent` to a new parent `p` after `c` has left its old parent's
      list (`u`) ends with the `addChild`. */
  lemma SetParentStep(t: Links, u: Links, c: Id, p: Id)
    requires Closed(t) && c in t && p in t && t[c].parent != Some(p)
    requires t[c].parent.Some? ==> c in t[t[c].parent.value].children
    requires u == (if t[c].parent.Some? then RemoveChild(t, t[c].parent.value, c) else t)
    ensures SetParent(t, c, Some(p)) == AddChild(u[c := u[c].(parent := Some(p))], p, c)
  {
  }

  /** Appending a node that already points at `p` only lists it. */
  lemma AddChildPointing(t: Links, p: Id, c: Id)
    requires Closed(t) && p in t && c in t && p != c
    requires c !in t[p].children && t[c].parent == Some(p)
    ensures AddChild(t, p, c) == t[p := t[p].(children := t[p].children + [c])]
  {
    var t3 := t[p := t[p].(children := InsertAt(t[p].children, |t[p].children|, c))];
    SetParentSame(t3, c, p);
  }

  /** `setParent(p)` once the old parent has let go of `c`: point `c` at
      `p`, append it to `p`'s list. */
  lemma SetParentAppend(t: Links, d: Links, c: Id, p: Id)
    requires Closed(t) && c in t && p in t && p != c && t[c].parent != Some(p)
    requires t[c].parent.Some? ==> c in t[t[c].parent.value].children
    requires d == (if t[c].parent.Some? then RemoveChild(t, t[c].parent.value, c) else t)
    requires c !in d[p].children
    ensures SetParent(t, c, Some(p)) ==
      d[c := d[c].(parent := Some(p))][p := d[p].(children := d[p].children + [c])]
  {
    SetParentStep(t, d, c, p);
    AddChildPointing(d[c := d[c].(parent := Some(p))], p, c);
  }

  /** The same map edit, read as attaching at the back. */
  lemma AppendIsAttach(d: Links, c: Id, p: Id)
    requires c in d && p in d && p != c
    ensures Attach(d, p, c, |d[p].children|) ==
      d[c := d[c].(parent := Some(p))][p := d[p].(children := d[p].children + [c])]
  {
    var a := Attach(d, p, c, |d[p].children|);
    var b := d[c := d[c].(parent := Some(p))][p := d[p].(children := d[p].children + [c])];
    forall x | x in a ensures a[x] == b[x] {
    }
  }

  // ---------------------------------------------------------------------
  // Agreement with the reference reparenting

  /** On consistent links, removing a listed child is detaching it. */
  lemma RemoveChildIsDetach(t: Links, p: Id, c: Id)
    requires Consistent(t) && p in t && c in t[p].children
    ensures RemoveChild(t, p, c) == Detach(t, c)
  {
    RemoveFirstNoDup(t[p].children, c);
    RemoveChildOnce(t, p, c);
  }

  /** On consistent links, `removeParent` is detaching. */
  lemma RemoveParentIsDetach(t: Links, c: Id)
    requires Consistent(t) && c in t
    ensures RemoveParent(t, c) == Detach(t, c)
  {
    if t[c].parent.Some? {
      var p := t[c].parent.value;
      RemoveChildIsDetach(t, p, c);
    }
  }

  /** On a valid hierarchy, changing the parent is detaching and then
      appending to the new parent's list. */
  lemma SetParentIsReparent(t: Links, rk: map<Id, nat>, c: Id, p: Id)
    requires Valid(t, rk) && c in t && p in t && p != c && t[c].parent != Some(p)
    ensures SetParent(t, c, Some(p)) == Reparent(t, c, p, |Detach(t, c)[p].children|)
  {
    DetachSound(t, rk, c);
    if t[c].parent.Some? {
      RemoveChildIsDetach(t, t[c].parent.value, c);
    }
    SetParentAppend(t, Detach(t, c), c, p);
    AppendIsAttach(Detach(t, c), c, p);
  }

  /** On a valid hierarchy, clearing the parent is detaching. */
  lemma SetParentNoneIsDetach(t: Links, rk: map<Id, nat>, c: Id)
    requires Valid(t, rk) && c in t
    ensures SetParent(t, c, None) == Detach(t, c)
  {
    if t[c].parent.Some? {
      var q := t[c].parent.value;
      RemoveChildIsDetach(t, q, c);
      DetachSound(t, rk, c);
    }
  }

  /** `insertChild` of a parentless node `c` that `p` does not list is
      attaching it. */
  lemma InsertOrphan(t: Links, p: Id, c: Id, index: int)
    requires Closed(t) && p in t && c in t && p != c && c !in t[p].children && t[c].parent == None
    ensures InsertChild(t, p, c, index) == Reparent(t, c, p, index)
  {
    var t1 := t[p := t[p].(children := InsertAt(t[p].children, index, c))];
    var v := t1[c := t1[c].(parent := Some(p))];
    SetParentStep(t1, t1, c, p);
    InsertChildListed(v, p, c, |v[p].children|);
    assert Detach(t, c) == t;
    var e := Reparent(t, c, p, index);
    forall x | x in t ensures v[x] == e[x] {
    }
  }

  /** `insertChild` of a node `c` that `p` does not list, when `c`'s
      current parent `q` lists it exactly once, is detaching it from `q` and
      attaching it to `p`. */
  lemma InsertMoved(t: Links, p: Id, q: Id, c: Id, index: int)
    requires Closed(t) && p in t && c in t && p != c && c !in t[p].children
    requires t[c].parent == Some(q) && q != p && q != c
    requires c in t[q].children && c !in RemoveFirst(t[q].children, c)
    ensures InsertChild(t, p, c, index) == Reparent(t, c, p, index)
  {
    var t1 := t[p := t[p].(children := InsertAt(t[p].children, index, c))];
    var u := t1[q := t1[q].(children := RemoveFirst(t1[q].children, c))];
    var v := u[c := u[c].(parent := Some(p))];
    var w := RemoveChild(t1, q, c);
    assert w[c := w[c].(parent := Some(p))] == v by {
      RemoveChildOnce(t1, q, c);
    }
    assert SetParent(t1, c, Some(p)) == AddChild(v, p, c) by {
      SetParentStep(t1, w, c, p);
    }
    InsertChildListed(v, p, c, |v[p].children|);
    MovedIsReparent(t, p, q, c, index);
  }

  /** The legacy order of edits (list at `p`, unlist at `q`, point at `p`)
      gives the same links as detaching and then attaching. */
  lemma MovedIsReparent(t: Links, p: Id, q: Id, c: Id, index: int)
    requires Closed(t) && p in t && c in t && p != c && t[c].parent == Some(q) && q != p && q != c
    ensures var t1 := t[p := t[p].(children := InsertAt(t[p].children, index, c))];
      var u := t1[q := t1[q].(children := RemoveFirst(t1[q].children, c))];
      u[c := u[c].(parent := Some(p))] == Reparent(t, c, p, index)
  {
    var t1 := t[p := t[p].(children := InsertAt(t[p].children, index, c))];
    var u := t1[q := t1[q].(children := RemoveFirst(t1[q].children, c))];
    var v := u[c := u[c].(parent := Some(p))];
    var e := Reparent(t, c, p, index);
    forall x | x in t ensures v[x] == e[x] {
    }
  }

  /** On a valid hierarchy, inserting an unlisted child is reparenting it. */
  lemma InsertChildIsReparent(t: Links, rk: map<Id, nat>, p: Id, c: Id, index: int)
    requires Valid(t, rk) && p in t && c in t && p != c && c !in t[p].children
    ensures InsertChild(t, p, c, index) == Reparent(t, c, p, index)
  {
    match t[c].parent
    case None =>
      InsertOrphan(t, p, c, index);
    case Some(q) =>
      assert q != c by { ChildRank(t, rk, q, c); }
      RemoveFirstNoDup(t[q].children, c);
      InsertMoved(t, p, q, c, index);
  }

  // ---------------------------------------------------------------------
  // What each edit guarantees

  /** `p->removeChild(c)` on a valid hierarchy: when `p` lists `c`, `c`
      ends up parentless and listed nowhere, `p` loses exactly that entry,
      and nothing else changes. */
  lemma RemoveChildSound(t: Links, rk: map<Id, nat>, p: Id, c: Id)
    requires Valid(t, rk) && p in t && c in t
    ensures c !in t[p].children ==> RemoveChild(t, p, c) == t
    ensures Valid(RemoveChild(t, p, c), rk)
    ensures c in t[p].children ==> RemoveChild(t, p, c)[c] == t[c].(parent := None)
    ensures c in t[p].children ==> RemoveChild(t, p, c)[p].children == RemoveFirst(t[p].children, c)
    ensures c in t[p].children ==> forall x :: x in t ==> c !in RemoveChild(t, p, c)[x].children
    ensures c in t[p].children ==>
      forall x :: x in t && x != c && x != p ==> RemoveChild(t, p, c)[x] == t[x]
  {
    if c in t[p].children {
      RemoveChildIsDetach(t, p, c);
      DetachSound(t, rk, c);
    } else {
      RemoveChildUnlisted(t, p, c);
    }
  }

  /** `c->removeParent()` on a valid hierarchy: `c` is parentless and listed
      nowhere, its old parent loses exactly `c`, nothing else changes. */
  lemma RemoveParentSound(t: Links, rk: map<Id, nat>, c: Id)
    requires Valid(t, rk) && c in t
    ensures Valid(RemoveParent(t, c), rk)
    ensures RemoveParent(t, c)[c] == t[c].(parent := None)
    ensures forall x :: x in t ==> c !in RemoveParent(t, c)[x].children
    ensures t[c].parent.Some? ==>
      RemoveParent(t, c)[t[c].parent.value].children == RemoveFirst(t[t[c].parent.value].children, c)
    ensures forall x :: x in t && x != c && Some(x) != t[c].parent ==> RemoveParent(t, c)[x] == t[x]
  {
    RemoveParentIsDetach(t, c);
    DetachSound(t, rk, c);
  }

  /** `c->setParent(np)` on a valid hierarchy where `c` is not an ancestor
      of the new parent: `c` points at `np`, is listed by `np` only, at the
      back of its list, the old parent loses exactly `c`, no other node
      changes, and the result is again consistent and acyclic. */
  lemma SetParentSound(t: Links, rk: map<Id, nat>, c: Id, np: Option<Id>)
    requires Valid(t, rk) && c in t
    requires np.Some? ==> np.value in t && !Anc(t, rk, np.value, c)
    ensures t[c].parent == np ==> SetParent(t, c, np) == t
    ensures SetParent(t, c, np)[c] == t[c].(parent := np)
    ensures forall x :: x in t && Some(x) != np ==> c !in SetParent(t, c, np)[x].children
    ensures np.Some? && t[c].parent != np ==>
      SetParent(t, c, np)[np.value].children == t[np.value].children + [c]
    ensures t[c].parent.Some? && t[c].parent != np ==>
      SetParent(t, c, np)[t[c].parent.value].children == RemoveFirst(t[t[c].parent.value].children, c)
    ensures forall x :: x in t && x != c && Some(x) != np && Some(x) != t[c].parent ==>
      SetParent(t, c, np)[x] == t[x]
    ensures exists rk' :: Valid(SetParent(t, c, np), rk')
  {
    if t[c].parent == np {
      assert Valid(SetParent(t, c, np), rk);
    } else if np.None? {
      SetParentNoneIsDetach(t, rk, c);
      DetachSound(t, rk, c);
      assert Valid(SetParent(t, c, np), rk);
    } else {
      var p := np.value;
      assert p != c;
      SetParentIsReparent(t, rk, c, p);
      assert Detach(t, c)[p] == t[p] by {
        DetachSound(t, rk, c);
        if t[c].parent.Some? {
          assert t[c].parent.value != p;
        }
      }
      ReparentMoves(t, rk, c, p, |t[p].children|);
    }
  }

  /** `p->insertChild(c, index)` on a valid hierarchy where `c` is not an
      ancestor of `p`: an already listed `c` changes nothing; otherwise `c`
      points at `p`, sits in `p`'s list at the position `index` selects and
      in no other list, the old parent loses exactly `c`, no other node
      changes, and the result is again consistent and acyclic. */
  lemma InsertChildSound(t: Links, rk: map<Id, nat>, p: Id, c: Id, index: int)
    requires Valid(t, rk) && p in t && c in t && !Anc(t, rk, p, c)
    ensures c in t[p].children ==> InsertChild(t, p, c, index) == t
    ensures c !in t[p].children ==> InsertChild(t, p, c, index)[c] == t[c].(parent := Some(p))
    ensures c !in t[p].children ==>
      InsertChild(t, p, c, index)[p].children == InsertAt(t[p].children, index, c)
    ensures forall x :: x in t && x != p ==> c !in InsertChild(t, p, c, index)[x].children
    ensures c !in t[p].children && t[c].parent.Some? ==>
      InsertChild(t, p, c, index)[t[c].parent.value].children == RemoveFirst(t[t[c].parent.value].children, c)
    ensures forall x :: x in t && x != c && x != p && Some(x) != t[c].parent ==>
      InsertChild(t, p, c, index)[x] == t[x]
    ensures exists rk' :: Valid(InsertChild(t, p, c, index), rk')
  {
    if c in t[p].children {
      InsertChildListed(t, p, c, index);
      assert Valid(InsertChild(t, p, c, index), rk);
    } else {
      assert p != c;
      assert t[c].parent != Some(p);
      InsertChildIsReparent(t, rk, p, c, index);
      ReparentMoves(t, rk, c, p, index);
    }
  }

  /** `p->addChild(c)` appends: it is `insertChild` at the back. */
  lemma AddChildSound(t: Links, rk: map<Id, nat>, p: Id, c: Id)
    requires Valid(t, rk) && p in t && c in t && !Anc(t, rk, p, c)
    ensures c in t[p].children ==> AddChild(t, p, c) == t
    ensures c !in t[p].children ==> AddChild(t, p, c)[c] == t[c].(parent := Some(p))
    ensures c !in t[p].children ==> AddChild(t, p, c)[p].children == t[p].children + [c]
    ensures exists rk' :: Valid(AddChild(t, p, c), rk')
  {
    InsertChildSound(t, rk, p, c, |t[p].children|);
  }

  /** Removing a freshly attached child undoes the attachment. */
  lemma RemoveAttached(t: Links, p: Id, c: Id, index: int)
    requires Closed(t) && p in t && c in t && p != c && t[c].parent == None && c !in t[p].children
    ensures RemoveChild(Attach(t, p, c, index), p, c) == t
  {
    var a := Attach(t, p, c, index);
    RemoveInserted(t[p].children, index, c);
    RemoveChildOnce(a, p, c);
    UnlistUnpoint(t, p, c, index);
  }

  /** Unlisting and un-pointing a freshly attached child gives back the
      links it was attached to. */
  lemma UnlistUnpoint(t: Links, p: Id, c: Id, index: int)
    requires p in t && c in t && p != c && t[c].parent == None
    requires RemoveFirst(InsertAt(t[p].children, index, c), c) == t[p].children
    ensures var a := Attach(t, p, c, index);
      var a1 := a[p := a[p].(children := RemoveFirst(a[p].children, c))];
      a1[c := a1[c].(parent := None)] == t
  {
    var a := Attach(t, p, c, index);
    var a1 := a[p := a[p].(children := RemoveFirst(a[p].children, c))];
    var b := a1[c := a1[c].(parent := None)];
    forall x | x in t ensures b[x] == t[x] {
    }
  }

  /** Inserting a parentless node and removing it again restores the
      hierarchy exactly. */
  lemma InsertThenRemoveChild(t: Links, rk: map<Id, nat>, p: Id, c: Id, index: int)
    requires Valid(t, rk) && p in t && c in t && t[c].parent == None && !Anc(t, rk, p, c)
    ensures (InsertChildSound(t, rk, p, c, index); RemoveChild(InsertChild(t, p, c, index), p, c) == t)
  {
    assert c !in t[p].children;
    assert p != c;
    InsertChildIsReparent(t, rk, p, c, index);
    assert Detach(t, c) == t;
    RemoveAttached(t, p, c, index);
  }

  /** After `p->insertChild(c, index)` of a new child, `p->getChild` at the
      chosen position returns `c`. */
  lemma InsertThenGetChild(t: Links, rk: map<Id, nat>, p: Id, c: Id, index: int)
    requires Valid(t, rk) && p in t && c in t && c !in t[p].children && !Anc(t, rk, p, c)
    ensures GetChild(InsertChild(t, p, c, index), p, InsertPosition(|t[p].children|, index)) == Some(c)
  {
    InsertChildSound(t, rk, p, c, index);
  }
}
