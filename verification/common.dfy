/** Vocabulary shared by both engine generations: node ids, optional values,
    plane geometry, the hook-call trace, and the ordered-sequence edits that
    child lists go through. */
module Common {

  /** A node is referred to by an id into a store (the source uses shared pointers). */
  type Id = int

  datatype Option<+T> = None | Some(value: T)

  /** A point or a displacement in some node's coordinate frame. */
  datatype Vec = Vec(x: real, y: real)

  /** An axis-aligned rectangle: top-left position and size. The source's
      `ofRectangle` default is all zero. */
  datatype Rect = Rect(x: real, y: real, width: real, height: real)

  const EmptyRect := Rect(0.0, 0.0, 0.0, 0.0)

  function Min(a: real, b: real): real { if a <= b then a else b }
  function Max(a: real, b: real): real { if a <= b then b else a }

  /** The host library's rectangle containment test: strictly between the
      minimum and maximum corner on both axes (a negative size is allowed). */
  predicate Contains(r: Rect, px: real, py: real)
  {
    && Min(r.x, r.x + r.width) < px < Max(r.x, r.x + r.width)
    && Min(r.y, r.y + r.height) < py < Max(r.y, r.y + r.height)
  }

  /** The key, mouse and file-drop notifications the host forwards. */
  datatype InputKind =
    | KeyPressed | KeyReleased
    | MouseMoved | MousePressed | MouseDragged | MouseReleased | MouseScrolled
    | DragEvent

  /** The overridable hooks whose calls make up a trace. */
  datatype Hook =
    | OnSetup
    | OnStart
    | OnUpdate | PostUpdate
    | OnDraw | PostDraw
    | OnExit
    | OnActiveChanged(active: bool)
    | OnActiveToggled   // the legacy engine's argument-less onActiveChanged()
    | OnGlobalActiveChanged(globalActive: bool)
    | OnInput(kind: InputKind)
    | OnLocalMatrixChanged
    | TimerFired(tag: nat)

  /** One hook call on one node. */
  datatype Event = Event(node: Id, hook: Hook)

  /** The trace of the given hook on each of the given nodes, in order. */
  function HookOn(ids: seq<Id>, h: Hook): (r: seq<Event>)
    ensures |r| == |ids|
    ensures forall i :: 0 <= i < |ids| ==> r[i] == Event(ids[i], h)
  {
    if ids == [] then [] else [Event(ids[0], h)] + HookOn(ids[1..], h)
  }

  lemma HookOnAppend(a: seq<Id>, b: seq<Id>, h: Hook)
    ensures HookOn(a + b, h) == HookOn(a, h) + HookOn(b, h)
  {
  }

  /** The events of `tr` that call hook `h`, in order. */
  function OnlyHook(tr: seq<Event>, h: Hook): (r: seq<Event>)
    ensures forall e :: e in r <==> e in tr && e.hook == h
  {
    if tr == [] then []
    else (if tr[0].hook == h then [tr[0]] else []) + OnlyHook(tr[1..], h)
  }

  lemma OnlyHookAppend(a: seq<Event>, b: seq<Event>, h: Hook)
    ensures OnlyHook(a + b, h) == OnlyHook(a, h) + OnlyHook(b, h)
  {
    if a == [] {
      assert a + b == b;
    } else {
      assert (a + b)[1..] == a[1..] + b;
      OnlyHookAppend(a[1..], b, h);
    }
  }

  predicate NoDup<T(==)>(s: seq<T>)
  {
    forall i, j :: 0 <= i < j < |s| ==> s[i] != s[j]
  }

  /** Number of occurrences of `x` in `s`. */
  function Count<T(==)>(s: seq<T>, x: T): nat
  {
    if s == [] then 0 else (if s[0] == x then 1 else 0) + Count(s[1..], x)
  }

  lemma CountNoDup<T>(s: seq<T>, x: T)
    requires NoDup(s)
    ensures Count(s, x) == if x in s then 1 else 0
  {
    if s != [] {
      assert NoDup(s[1..]);
      CountNoDup(s[1..], x);
      if s[0] == x {
        assert x !in s[1..] by {
          forall k | 0 <= k < |s[1..]| ensures s[1..][k] != x {
            assert s[1..][k] == s[k + 1];
          }
        }
      }
    }
  }

  /** Position of the first occurrence of `x`. */
  function IndexOf<T(==)>(s: seq<T>, x: T): (i: nat)
    requires x in s
    ensures i < |s| && s[i] == x && x !in s[..i]
  {
    if s[0] == x then 0 else 1 + IndexOf(s[1..], x)
  }

  /** `s` without its first occurrence of `x` (`s` itself when there is none):
      the source's erase-first-match loop over a child list. */
  function RemoveFirst<T(==)>(s: seq<T>, x: T): (r: seq<T>)
    ensures x !in s ==> r == s
    ensures forall y :: y in r ==> y in s
  {
    if x in s then s[..IndexOf(s, x)] + s[IndexOf(s, x) + 1..] else s
  }

  /** Removing a present `x` takes away exactly one occurrence of it. */
  lemma RemoveFirstMultiset<T>(s: seq<T>, x: T)
    requires x in s
    ensures |RemoveFirst(s, x)| == |s| - 1
    ensures multiset(RemoveFirst(s, x)) == multiset(s) - multiset{x}
  {
    var i := IndexOf(s, x);
    assert s == s[..i] + [x] + s[i + 1..];
  }

  lemma RemoveFirstNoDup<T>(s: seq<T>, x: T)
    requires NoDup(s)
    ensures NoDup(RemoveFirst(s, x))
    ensures x !in RemoveFirst(s, x)
    ensures forall y :: y != x ==> (y in RemoveFirst(s, x) <==> y in s)
  {
    if x in s {
      var i := IndexOf(s, x);
      var r := RemoveFirst(s, x);
      EraseView(s, i);
      assert r == s[..i] + s[i + 1..];
      forall a, b | 0 <= a < b < |r| ensures r[a] != r[b] {
        var a' := if a < i then a else a + 1;
        var b' := if b < i then b else b + 1;
        assert r[a] == s[a'] && r[b] == s[b'];
      }
      forall k | 0 <= k < |r| ensures r[k] != x {
        var k' := if k < i then k else k + 1;
        assert r[k] == s[k'] && k' != i;
      }
      forall y | y != x && y in s ensures y in r {
        var j :| 0 <= j < |s| && s[j] == y;
        assert j != i;
        if j < i { assert r[j] == y; } else { assert r[j - 1] == y; }
      }
    }
  }

  lemma CountIsMultiplicity<T>(s: seq<T>, x: T)
    ensures Count(s, x) == multiset(s)[x]
  {
    if s != [] {
      assert s == [s[0]] + s[1..];
      CountIsMultiplicity(s[1..], x);
    }
  }

  /** Removing a present `x` lowers its count by one. */
  lemma RemoveFirstCount<T>(s: seq<T>, x: T)
    requires x in s
    ensures Count(RemoveFirst(s, x), x) == Count(s, x) - 1
  {
    RemoveFirstMultiset(s, x);
    CountIsMultiplicity(s, x);
    CountIsMultiplicity(RemoveFirst(s, x), x);
  }

  /** Taking one more element is appending it. */
  lemma TakeSnoc<T>(s: seq<T>, i: nat)
    requires i < |s|
    ensures s[..i + 1] == s[..i] + [s[i]]
  {
  }

  /** `s` with position `i` erased, seen from `i`. */
  lemma EraseView<T>(s: seq<T>, i: nat)
    requires i < |s|
    ensures var r := s[..i] + s[i + 1..];
      |r| == |s| - 1 && r[..i] == s[..i] && r[i..] == s[i + 1..] &&
      forall k :: i <= k < |r| ==> r[k] == s[k + 1]
  {
  }

  /** `s` with position `i` erased, seen through the slices around a later
      position `k`. */
  lemma EraseSlices<T>(s: seq<T>, i: nat, k: nat)
    requires i < k <= |s|
    ensures var r := s[..i] + s[i + 1..];
      r[..i] == s[..i] && r[i..k - 1] == s[i + 1..k] && r[k - 1..] == s[k..]
  {
    var r := s[..i] + s[i + 1..];
    assert forall j :: 0 <= j < |r| ==> r[j] == if j < i then s[j] else s[j + 1];
  }

  /** Where `insertChild(child, index)` puts a new child in a list of `n`
      children: past the end when `index >= n`, at `index` when
      `0 <= index < n`, at the front when `index` is negative. */
  function InsertPosition(n: nat, index: int): (pos: nat)
    ensures pos <= n
    ensures index >= n ==> pos == n
    ensures 0 <= index < n ==> pos == index
    ensures index < 0 ==> pos == 0
  {
    if n <= index then n else if 0 <= index then index else 0
  }

  /** `s` with `x` placed at `InsertPosition(|s|, index)`. */
  function InsertAt<T>(s: seq<T>, index: int, x: T): (r: seq<T>)
    ensures |r| == |s| + 1
    ensures x in r && (forall y :: y in s ==> y in r)
    ensures forall y :: y in r ==> y == x || y in s
    ensures index >= |s| ==> r == s + [x]
  {
    var pos := InsertPosition(|s|, index);
    assert s == s[..pos] + s[pos..];
    s[..pos] + [x] + s[pos..]
  }

  /** `InsertAt` puts `x` at the chosen position and keeps the entries
      before and after it in order. */
  lemma InsertAtShape<T>(s: seq<T>, index: int, x: T)
    ensures var pos := InsertPosition(|s|, index);
      var r := InsertAt(s, index, x);
      r[pos] == x && r[..pos] == s[..pos] && r[pos + 1..] == s[pos..]
  {
  }

  /** The size that `insertChild`'s index test compares against: the source
      writes `children.size() <= index`, an unsigned 64-bit size against a
      signed 32-bit `int`, so the `int` is first converted to unsigned and a
      negative `index` becomes `index + 2^64`. */
  function AsUnsigned64(index: int): (u: nat)
    requires -0x8000_0000 <= index < 0x8000_0000
    ensures 0 <= index ==> u == index
    ensures index < 0 ==> u >= 0x1_0000_0000_0000_0000 - 0x8000_0000
  {
    if index < 0 then index + 0x1_0000_0000_0000_0000 else index
  }

  /** `insertChild`'s choice of position exactly as written, with the
      implicit unsigned conversion in its first test. */
  function InsertPositionAsWritten(n: nat, index: int): (pos: int)
    requires n < 0x8000_0000 && -0x8000_0000 <= index < 0x8000_0000
    ensures 0 <= pos <= n
  {
    if n <= AsUnsigned64(index) then n else if 0 <= index then index else 0
  }

  /** `insertChild`'s list edit exactly as written. */
  function InsertAtAsWritten<T>(s: seq<T>, index: int, x: T): (r: seq<T>)
    requires |s| < 0x8000_0000 && -0x8000_0000 <= index < 0x8000_0000
    ensures |r| == |s| + 1
  {
    var pos := InsertPositionAsWritten(|s|, index);
    s[..pos] + [x] + s[pos..]
  }

  /** As written, every negative index appends: the front-insertion branch
      is unreachable. The written code agrees with the intended placement
      exactly on non-negative indexes and on empty lists. */
  lemma AsWrittenNegativeIndexAppends(n: nat, index: int)
    requires n < 0x8000_0000 && -0x8000_0000 <= index < 0x8000_0000
    ensures index < 0 ==> InsertPositionAsWritten(n, index) == n
    ensures InsertPositionAsWritten(n, index) == InsertPosition(n, index) <==> index >= 0 || n == 0
  {
  }

  /** A concrete witness: inserting `2` at index -1 into `[1]` gives `[1, 2]`
      as written, where the front insertion the code spells out gives `[2, 1]`. */
  lemma AsWrittenInsertCounterexample()
    ensures InsertAtAsWritten([1], -1, 2) == [1, 2]
    ensures InsertAt([1], -1, 2) == [2, 1]
  {
    assert InsertPositionAsWritten(1, -1) == 1;
    assert InsertPosition(1, -1) == 0;
  }

  /** Inserting a new element and then erasing it gives back the original
      list: every other element keeps its relative order. */
  lemma {:induction false} RemoveInserted<T>(s: seq<T>, index: int, x: T)
    requires x !in s
    ensures RemoveFirst(InsertAt(s, index, x), x) == s
  {
    var pos := InsertPosition(|s|, index);
    var r := InsertAt(s, index, x);
    assert r == s[..pos] + [x] + s[pos..];
    assert x !in r[..pos] by { assert r[..pos] == s[..pos]; }
    assert IndexOf(r, x) == pos;
    assert r[..pos] + r[pos + 1..] == s[..pos] + s[pos..];
    assert s[..pos] + s[pos..] == s;
  }

  lemma InsertAtNoDup<T>(s: seq<T>, index: int, x: T)
    requires NoDup(s) && x !in s
    ensures NoDup(InsertAt(s, index, x))
    ensures forall y :: y in InsertAt(s, index, x) <==> y == x || y in s
  {
    var pos := InsertPosition(|s|, index);
    var r := InsertAt(s, index, x);
    assert r == s[..pos] + [x] + s[pos..];
    forall a, b | 0 <= a < b < |r| ensures r[a] != r[b] {
      if a != pos && b != pos {
        var a' := if a < pos then a else a - 1;
        var b' := if b < pos then b else b - 1;
        assert r[a] == s[a'] && r[b] == s[b'];
      } else if a == pos {
        assert r[b] == s[b - 1];
      } else {
        assert r[a] == s[a];
      }
    }
    forall y ensures y in r <==> y == x || y in s {
      assert multiset(r) == multiset(s) + multiset{x} by {
        assert s == s[..pos] + s[pos..];
      }
    }
  }

  /** The two halves of a list without duplicates share nothing. */
  lemma NoDupSplit<T>(a: seq<T>, b: seq<T>)
    requires NoDup(a + b)
    ensures forall y :: y in b ==> y !in a
  {
    forall y | y in b ensures y !in a {
      var j :| 0 <= j < |b| && b[j] == y;
      forall i | 0 <= i < |a| ensures a[i] != y {
        assert (a + b)[i] == a[i] && (a + b)[|a| + j] == b[j];
      }
    }
  }
}
