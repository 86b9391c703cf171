/** Hierarchy edits of the current engine (`ofxComponentBase`), written as
    the source's own member functions calling each other: `insertChild`
    lists the child and then calls the child's `setParent`, which unlists it
    from its old parent and calls the new parent's `addChild`, which calls
    `insertChild` again. The lemmas prove that, on a consistent acyclic
    hierarchy, each of these recursions settles on the reference
    detach-then-attach reparenting of `Forest`, and so keeps the hierarchy
    consistent and acyclic. */
module BaseHierarchy {
  import opened Common
  import opened Forest

  /** How many of the two links between `c` and `p` (listed by `p`, pointing
      at `p`) are still missing; each round of the insertChild / setParent /
      addChild recursion adds one. */
  function Pending(t: Links, c: Id, p: Id): nat
    requires c in t && p in t
  {
    (if c in t[p].children then 0 else 1) + (if t[c].parent == Some(p) then 0 else 1)
  }

  /** `p.removeChild(c)`: at the first place `p` lists `c`, clear `c`'s
      parent and erase that entry; nothing happens when `c` is not listed. */
  function RemoveChild(t: Links, p: Id, c: Id): (r: Links)
    requires Closed(t) && p in t && c in t
    ensures r.Keys == t.Keys && Closed(r)
    ensures c !in t[p].children ==> r == t
    ensures forall x :: x in t && x != c ==> r[x].parent == t[x].parent
    ensures forall x :: x in t && x != p ==> r[x].children == t[x].children
  {
    if c in t[p].children then
      var t1 := t[c := t[c].(parent := None)];
      t1[p := t1[p].(children := RemoveFirst(t1[p].children, c))]
    else t
  }

  /** `c.removeParent()`: clear the parent reference first, then ask the old
      parent to unlist `c`. */
  function RemoveParent(t: Links, c: Id): (r: Links)
    requires Closed(t) && c in t
    ensures r.Keys == t.Keys && Closed(r)
    ensures r[c].parent == None
  {
    match t[c].parent
    case None => t
    case Some(p) => RemoveChild(t[c := t[c].(parent := None)], p, c)
  }

  /** `c.setParent(np)`: nothing when `np` is already the parent; otherwise
      the old parent unlists `c`, the reference is set, and the new parent
      (if any) appends `c` through `addChild`. The trailing
      `updateGlobalMatrix` call is modelled in `Placement.UpdateGlobal`. */
  function SetParent(t: Links, c: Id, np: Option<Id>): (r: Links)
    requires Closed(t) && c in t && (np.Some? ==> np.value in t)
    ensures r.Keys == t.Keys && Closed(r)
    decreases if np.Some? then Pending(t, c, np.value) else 0, 0
  {
    if t[c].parent == np then t
    else
      var t1 := if t[c].parent.Some? then RemoveChild(t, t[c].parent.value, c) else t;
      var t2 := t1[c := t1[c].(parent := np)];
      match np
      case None => t2
      case Some(p) => AddChild(t2, p, c)
  }

  /** `p.addChild(c)`: insert at the back. */
  function AddChild(t: Links, p: Id, c: Id): (r: Links)
    requires Closed(t) && p in t && c in t
    ensures r.Keys == t.Keys && Closed(r)
    decreases Pending(t, c, p), 2
  {
    InsertChild(t, p, c, |t[p].children|)
  }

  /** `p.insertChild(c, index)`: when `c` is not yet listed, put it at the
      position `index` selects and call `c.setParent(p)`. The position is
      the intended one (`InsertPosition`); the code's signed/unsigned
      comparison is modelled separately by `InsertPositionAsWritten`. */
  function InsertChild(t: Links, p: Id, c: Id, index: int): (r: Links)
    requires Closed(t) && p in t && c in t
    ensures r.Keys == t.Keys && Closed(r)
    decreases Pending(t, c, p), 1
  {
    if c in t[p].children then t
    else
      var t1 := t[p := t[p].(children := InsertAt(t[p].children, index, c))];
      SetParent(t1, c, Some(p))
  }

  // ---------------------------------------------------------------------
  // Agreement with the reference reparenting

  /** On consistent links, removing a listed child is detaching it. */
  lemma RemoveChildIsDetach(t: Links, p: Id, c: Id)
    requires Consistent(t) && p in t && c in t[p].children
    ensures RemoveChild(t, p, c) == Detach(t, c)
  {
    assert t[c].parent == Some(p);
  }

  /** On consistent links, `removeParent` is detaching. */
  lemma RemoveParentIsDetach(t: Links, c: Id)
    requires Consistent(t) && c in t
    ensures RemoveParent(t, c) == Detach(t, c)
  {
    if t[c].parent.Some? {
      var p := t[c].parent.value;
      assert c in t[p].children;
    }
  }

  /** One round of the recursion: a node already pointing at `p` is left
      alone by `setParent`. */
  lemma SetParentSame(t: Links, c: Id, p: Id)
    requires Closed(t) && c in t && p in t && t[c].parent == Some(p)
    ensures SetParent(t, c, Some(p)) == t
  {
  }

  /** One round of the recursion: a listed child is left alone by
      `insertChild` (and so by `addChild`). */
  lemma InsertChildListed(t: Links, p: Id, c: Id, index: int)
    requires Closed(t) && p in t && c in t && c in t[p].children
    ensures InsertChild(t, p, c, index) == t
    ensures AddChild(t, p, c) == t
  {
  }

  /** One round of the recursion: `setParent` to a new parent `p` after
      `c` has left its old parent's list (`u`) ends with the `addChild`. */
  lemma SetParentStep(t: Links, u: Links, c: Id, p: Id)
    requires Closed(t) && c in t && p in t && t[c].parent != Some(p)
    requires u == (if t[c].parent.Some? then RemoveChild(t, t[c].parent.value, c) else t)
    ensures SetParent(t, c, Some(p)) == AddChild(u[c := u[c].(parent := Some(p))], p, c)
  {
  }

  /** One round of the recursion: appending a node that already points at
      `p` but is not listed by it only lists it. */
  lemma AddChildPointing(t: Links, p: Id, c: Id)
    requires Closed(t) && p in t && c in t && p != c
    requires c !in t[p].children && t[c].parent == Some(p)
    ensures AddChild(t, p, c) == t[p := t[p].(children := t[p].children + [c])]
  {
    var t3 := t[p := t[p].(children := InsertAt(t[p].children, |t[p].children|, c))];
    SetParentSame(t3, c, p);
  }

  /** `setParent(p)` once the old parent has let go of `c` (giving `d`, in
      which `p` does not list `c`): point `c` at `p`, append it to `p`'s list. */
  lemma SetParentAppend(t: Links, d: Links, c: Id, p: Id)
    requires Closed(t) && c in t && p in t && p != c && t[c].parent != Some(p)
    requires d == (if t[c].parent.Some? then RemoveChild(t, t[c].parent.value, c) else t)
    requires c !in d[p].children
    ensures SetParent(t, c, Some(p)) ==
      d[c := d[c].(parent := Some(p))][p := d[p].(children := d[p].children + [c])]
  {
    SetParentStep(t, d, c, p);
    AddChildPointing(d[c := d[c].(parent := Some(p))], p, c);
  }

  /** The same map edit, read as attaching at the back. */
  lemma AppendIsAttach(d: Links, c: Id, p: Id)
    requires c in d && p in d && p != c
    ensures Attach(d, p, c, |d[p].children|) ==
      d[c := d[c].(parent := Some(p))][p := d[p].(children := d[p].children + [c])]
  {
    var a := Attach(d, p, c, |d[p].children|);
    var b := d[c := d[c].(parent := Some(p))][p := d[p].(children := d[p].children + [c])];
    forall x | x in a ensures a[x] == b[x] {
    }
  }

  /** On a valid hierarchy, changing the parent is detaching and then
      appending to the new parent's list. */
  lemma SetParentIsReparent(t: Links, rk: map<Id, nat>, c: Id, p: Id)
    requires Valid(t, rk) && c in t && p in t && p != c && t[c].parent != Some(p)
    ensures SetParent(t, c, Some(p)) == Reparent(t, c, p, |Detach(t, c)[p].children|)
  {
    DetachSound(t, rk, c);
    if t[c].parent.Some? {
      RemoveChildIsDetach(t, t[c].parent.value, c);
    }
    SetParentAppend(t, Detach(t, c), c, p);
    AppendIsAttach(Detach(t, c), c, p);
  }

  /** On a valid hierarchy, clearing the parent is detaching. */
  lemma SetParentNoneIsDetach(t: Links, rk: map<Id, nat>, c: Id)
    requires Valid(t, rk) && c in t
    ensures SetParent(t, c, None) == Detach(t, c)
  {
    if t[c].parent.Some? {
      var q := t[c].parent.value;
      RemoveChildIsDetach(t, q, c);
      DetachSound(t, rk, c);
    }
  }

  /** What `insertChild` does to a node `c` that `p` does not list, when
      `c`'s current parent `q` (if any) lists it: a plain map edit. */
  lemma InsertChildUnlisted(t: Links, p: Id, c: Id, index: int)
    requires Closed(t) && p in t && c in t && p != c && c !in t[p].children
    requires t[c].parent != Some(p)
    requires t[c].parent.Some? ==> c in t[t[c].parent.value].children
    ensures var t1 := t[p := t[p].(children := InsertAt(t[p].children, index, c))];
      var u := if t[c].parent.Some? then RemoveChild(t1, t[c].parent.value, c) else t1;
      InsertChild(t, p, c, index) == u[c := u[c].(parent := Some(p))]
  {
    var t1 := t[p := t[p].(children := InsertAt(t[p].children, index, c))];
    var u := if t[c].parent.Some? then RemoveChild(t1, t[c].parent.value, c) else t1;
    SetParentStep(t1, u, c, p);
    InsertChildListed(u[c := u[c].(parent := Some(p))], p, c, |u[p].children|);
  }

  /** On a valid hierarchy, inserting an unlisted child is reparenting it. */
  lemma InsertChildIsReparent(t: Links, rk: map<Id, nat>, p: Id, c: Id, index: int)
    requires Valid(t, rk) && p in t && c in t && p != c && c !in t[p].children
    ensures InsertChild(t, p, c, index) == Reparent(t, c, p, index)
  {
    assert t[c].parent != Some(p);
    InsertChildUnlisted(t, p, c, index);
    var d := Detach(t, c);
    if t[c].parent.Some? {
      DetachShape(t, rk, c);
    }
    assert d[p] == t[p];
  }

  // ---------------------------------------------------------------------
  // What each edit guarantees

  /** `p.removeChild(c)` on a valid hierarchy: when `p` lists `c`, `c` ends
      up parentless and listed nowhere, `p` loses exactly that entry, and
      nothing else changes; the ranking still witnesses acyclicity. */
  lemma RemoveChildSound(t: Links, rk: map<Id, nat>, p: Id, c: Id)
    requires Valid(t, rk) && p in t && c in t
    ensures var r := RemoveChild(t, p, c);
      && Valid(r, rk)
      && (c !in t[p].children ==> r == t)
      && (c in t[p].children ==>
          && r[c] == t[c].(parent := None)
          && r[p].children == RemoveFirst(t[p].children, c)
          && (forall x :: x in t ==> c !in r[x].children)
          && (forall x :: x in t && x != c && x != p ==> r[x] == t[x]))
  {
    if c in t[p].children {
      RemoveChildIsDetach(t, p, c);
      DetachSound(t, rk, c);
    }
  }

  /** `c.removeParent()` on a valid hierarchy: `c` is parentless and listed
      nowhere, its old parent loses exactly `c`, nothing else changes. */
  lemma RemoveParentSound(t: Links, rk: map<Id, nat>, c: Id)
    requires Valid(t, rk) && c in t
    ensures var r := RemoveParent(t, c);
      && Valid(r, rk)
      && r[c] == t[c].(parent := None)
      && (forall x :: x in t ==> c !in r[x].children)
      && (t[c].parent.Some? ==>
          r[t[c].parent.value].children == RemoveFirst(t[t[c].parent.value].children, c))
      && (forall x :: x in t && x != c && Some(x) != t[c].parent ==> r[x] == t[x])
  {
    RemoveParentIsDetach(t, c);
    DetachSound(t, rk, c);
  }

  /** `c.setParent(np)` on a valid hierarchy where `c` is not an ancestor of
      the new parent: `c` points at `np`, is listed by `np` only, at the
      back of its list, the old parent loses exactly `c`, no other node
      changes, and the result is again consistent and acyclic. */
  lemma SetParentSound(t: Links, rk: map<Id, nat>, c: Id, np: Option<Id>)
    requires Valid(t, rk) && c in t
    requires np.Some? ==> np.value in t && !Anc(t, rk, np.value, c)
    ensures t[c].parent == np ==> SetParent(t, c, np) == t
    ensures SetParent(t, c, np)[c] == t[c].(parent := np)
    ensures forall x :: x in t && Some(x) != np ==> c !in SetParent(t, c, np)[x].children
    ensures np.Some? && t[c].parent != np ==>
      SetParent(t, c, np)[np.value].children == t[np.value].children + [c]
    ensures t[c].parent.Some? && t[c].parent != np ==>
      SetParent(t, c, np)[t[c].parent.value].children == RemoveFirst(t[t[c].parent.value].children, c)
    ensures forall x :: x in t && x != c && Some(x) != np && Some(x) != t[c].parent ==>
      SetParent(t, c, np)[x] == t[x]
    ensures exists rk' :: Valid(SetParent(t, c, np), rk')
  {
    if t[c].parent == np {
      assert Valid(SetParent(t, c, np), rk);
    } else if np.None? {
      SetParentNoneIsDetach(t, rk, c);
      DetachSound(t, rk, c);
      assert Valid(SetParent(t, c, np), rk);
    } else {
      var p := np.value;
      assert p != c;
      SetParentIsReparent(t, rk, c, p);
      assert Detach(t, c)[p] == t[p] by {
        DetachSound(t, rk, c);
        if t[c].parent.Some? {
          assert t[c].parent.value != p;
        }
      }
      ReparentMoves(t, rk, c, p, |t[p].children|);
    }
  }

  /** `p.insertChild(c, index)` on a valid hierarchy where `c` is not an
      ancestor of `p`: an already listed `c` changes nothing; otherwise `c`
      points at `p`, sits in `p`'s list at the position `index` selects and
      in no other list, the old parent loses exactly `c`, no other node
      changes, and the result is again consistent and acyclic. */
  lemma InsertChildSound(t: Links, rk: map<Id, nat>, p: Id, c: Id, index: int)
    requires Valid(t, rk) && p in t && c in t && !Anc(t, rk, p, c)
    ensures c in t[p].children ==> InsertChild(t, p, c, index) == t
    ensures c !in t[p].children ==> InsertChild(t, p, c, index)[c] == t[c].(parent := Some(p))
    ensures c !in t[p].children ==>
      InsertChild(t, p, c, index)[p].children == InsertAt(t[p].children, index, c)
    ensures forall x :: x in t && x != p ==> c !in InsertChild(t, p, c, index)[x].children
    ensures c !in t[p].children && t[c].parent.Some? ==>
      InsertChild(t, p, c, index)[t[c].parent.value].children == RemoveFirst(t[t[c].parent.value].children, c)
    ensures forall x :: x in t && x != c && x != p && Some(x) != t[c].parent ==>
      InsertChild(t, p, c, index)[x] == t[x]
    ensures exists rk' :: Valid(InsertChild(t, p, c, index), rk')
  {
    if c in t[p].children {
      InsertChildListed(t, p, c, index);
      assert Valid(InsertChild(t, p, c, index), rk);
    } else {
      assert p != c;
      assert t[c].parent != Some(p);
      InsertChildIsReparent(t, rk, p, c, index);
      ReparentMoves(t, rk, c, p, index);
    }
  }

  /** `p.addChild(c)` appends: it is `insertChild` at the back. */
  lemma AddChildSound(t: Links, rk: map<Id, nat>, p: Id, c: Id)
    requires Valid(t, rk) && p in t && c in t && !Anc(t, rk, p, c)
    ensures var r := AddChild(t, p, c);
      && (c in t[p].children ==> r == t)
      && (c !in t[p].children ==> r[c] == t[c].(parent := Some(p)) && r[p].children == t[p].children + [c])
      && (exists rk' :: Valid(r, rk'))
  {
    InsertChildSound(t, rk, p, c, |t[p].children|);
  }

  /** Removing a freshly attached child undoes the attachment. */
  lemma RemoveAttached(t: Links, p: Id, c: Id, index: int)
    requires Closed(t) && p in t && c in t && p != c && t[c].parent == None && c !in t[p].children
    ensures RemoveChild(Attach(t, p, c, index), p, c) == t
  {
    var a := Attach(t, p, c, index);
    RemoveInserted(t[p].children, index, c);
    var b := RemoveChild(a, p, c);
    forall x | x in t ensures b[x] == t[x] {
    }
  }

  /** Inserting a parentless node and removing it again restores the
      hierarchy exactly. */
  lemma InsertThenRemoveChild(t: Links, rk: map<Id, nat>, p: Id, c: Id, index: int)
    requires Valid(t, rk) && p in t && c in t && t[c].parent == None && !Anc(t, rk, p, c)
    ensures RemoveChild(InsertChild(t, p, c, index), p, c) == t
  {
    assert c !in t[p].children;
    assert p != c;
    InsertChildIsReparent(t, rk, p, c, index);
    assert Detach(t, c) == t;
    RemoveAttached(t, p, c, index);
  }

  /** After `p.insertChild(c, index)` of a new child, `p.getChild` at the
      chosen position returns `c`, and every child `getChild` returns has
      `p` as its parent. */
  lemma InsertThenGetChild(t: Links, rk: map<Id, nat>, p: Id, c: Id, index: int)
    requires Valid(t, rk) && p in t && c in t && c !in t[p].children && !Anc(t, rk, p, c)
    ensures GetChild(InsertChild(t, p, c, index), p, InsertPosition(|t[p].children|, index)) == Some(c)
  {
    InsertChildSound(t, rk, p, c, index);
  }
}
