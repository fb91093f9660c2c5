/**
 `Array.prototype.sort` with a comparator, as a stable sort by a total preorder.
 A comparator `compare` is represented by `le(a, b) == (compare(a, b) <= 0)`; the
 sort built-in is stable, and a stable sort by a total preorder has exactly one
 possible result, which insertion sort computes.
 */
module StableSort {
  import opened JsArray

  /** `le` is total (hence reflexive) and transitive. */
  ghost predicate TotalPreorder<T(!new)>(le: (T, T) -> bool) {
    && (forall a, b :: le(a, b) || le(b, a))
    && (forall a, b, c :: le(a, b) && le(b, c) ==> le(a, c))
  }

  /** The comparator with its arguments swapped: what a descending sort uses. */
  function Flip<T>(le: (T, T) -> bool): (T, T) -> bool {
    (a, b) => le(b, a)
  }

  /** The elements that compare equal to `k`. */
  function EquivTo<T>(le: (T, T) -> bool, k: T): T -> bool {
    x => le(x, k) && le(k, x)
  }

  /** Every element is `le` every later element. */
  ghost predicate SortedBy<T>(s: seq<T>, le: (T, T) -> bool) {
    forall i, j :: 0 <= i < j < |s| ==> le(s[i], s[j])
  }

  /**
   `r` keeps the relative order of equal elements of `s`: for every class of
   mutually equal elements, `r` and `s` list that class identically.
   */
  ghost predicate StableFor<T(!new)>(r: seq<T>, s: seq<T>, le: (T, T) -> bool) {
    forall k :: Filter(r, EquivTo(le, k)) == Filter(s, EquivTo(le, k))
  }

  /** Places `x` in front of the first element of `t` it is `le`. */
  function Insert<T>(x: T, t: seq<T>, le: (T, T) -> bool): (r: seq<T>)
    ensures |r| == |t| + 1
  {
    if t == [] then [x]
    else if le(x, t[0]) then [x] + t
    else [t[0]] + Insert(x, t[1..], le)
  }

  /** `s.sort(compare)`. */
  function Sort<T>(s: seq<T>, le: (T, T) -> bool): (r: seq<T>)
    ensures |r| == |s|
  {
    if s == [] then [] else Insert(s[0], Sort(s[1..], le), le)
  }

  lemma FlipIsTotalPreorder<T(!new)>(le: (T, T) -> bool)
    requires TotalPreorder(le)
    ensures TotalPreorder(Flip(le))
  {
  }

  lemma {:induction false} InsertPermutes<T(!new)>(x: T, t: seq<T>, le: (T, T) -> bool)
    ensures multiset(Insert(x, t, le)) == multiset(t) + multiset{x}
  {
    if t != [] && !le(x, t[0]) {
      InsertPermutes(x, t[1..], le);
      assert t == [t[0]] + t[1..];
    }
  }

  /** Sorting only reorders. */
  lemma {:induction false} SortPermutes<T(!new)>(s: seq<T>, le: (T, T) -> bool)
    ensures multiset(Sort(s, le)) == multiset(s)
  {
    if s != [] {
      SortPermutes(s[1..], le);
      InsertPermutes(s[0], Sort(s[1..], le), le);
      assert s == [s[0]] + s[1..];
    }
  }

  lemma {:induction false} InsertSorted<T(!new)>(x: T, t: seq<T>, le: (T, T) -> bool)
    requires TotalPreorder(le) && SortedBy(t, le)
    ensures SortedBy(Insert(x, t, le), le)
  {
    if t != [] && !le(x, t[0]) {
      var t' := t[1..];
      InsertSorted(x, t', le);
      var u := Insert(x, t', le);
      InsertPermutes(x, t', le);
      assert le(t[0], x);
      forall i | 0 <= i < |u| ensures le(t[0], u[i]) {
        assert u[i] in multiset(u);
        assert u[i] in multiset(t') + multiset{x};
        if u[i] != x {
          assert u[i] in t';
        }
      }
      var r := [t[0]] + u;
      forall i, j | 0 <= i < j < |r| ensures le(r[i], r[j]) {
        if i > 0 {
          assert r[i] == u[i - 1] && r[j] == u[j - 1];
        } else {
          assert r[j] == u[j - 1];
        }
      }
    }
  }

  /** Sorting orders the elements by `le`. */
  lemma {:induction false} SortSorted<T(!new)>(s: seq<T>, le: (T, T) -> bool)
    requires TotalPreorder(le)
    ensures SortedBy(Sort(s, le), le)
  {
    if s != [] {
      SortSorted(s[1..], le);
      InsertSorted(s[0], Sort(s[1..], le), le);
    }
  }

  /**
   Inserting `x` contributes `x` to its own class and nothing to any other:
   every element `Insert` steps over is strictly below `x`.
   */
  lemma {:induction false} InsertStable<T(!new)>(x: T, t: seq<T>, le: (T, T) -> bool, k: T)
    requires TotalPreorder(le)
    ensures Filter(Insert(x, t, le), EquivTo(le, k)) == Filter([x], EquivTo(le, k)) + Filter(t, EquivTo(le, k))
  {
    var f := EquivTo(le, k);
    if t == [] {
      assert Insert(x, t, le) == [x];
    } else if le(x, t[0]) {
      assert Insert(x, t, le) == [x] + t;
      FilterConcat([x], t, f);
    } else {
      var t' := t[1..];
      var u := Insert(x, t', le);
      assert Insert(x, t, le) == [t[0]] + u;
      InsertStable(x, t', le, k);
      FilterConcat([t[0]], u, f);
      assert t == [t[0]] + t';
      FilterConcat([t[0]], t', f);
      SkippedNotEquivalent(x, t[0], le, k);
      var a, b, c := Filter([x], f), Filter([t[0]], f), Filter(t', f);
      assert a == [] || b == [];
      SwapAroundEmpty(a, b, c);
    }
  }

  lemma SwapAroundEmpty<T>(a: seq<T>, b: seq<T>, c: seq<T>)
    requires a == [] || b == []
    ensures b + (a + c) == a + (b + c)
  {
    if a == [] {
      assert a + c == c && a + (b + c) == b + c;
    } else {
      assert b + (a + c) == a + c && b + c == c;
    }
  }

  /** An element strictly below `x` is not in the class of `x`. */
  lemma SkippedNotEquivalent<T(!new)>(x: T, y: T, le: (T, T) -> bool, k: T)
    requires TotalPreorder(le) && !le(x, y)
    ensures !(EquivTo(le, k)(x) && EquivTo(le, k)(y))
  {
  }

  /** Sorting keeps equal elements in their input order. */
  lemma {:induction false} SortStable<T(!new)>(s: seq<T>, le: (T, T) -> bool)
    requires TotalPreorder(le)
    ensures StableFor(Sort(s, le), s, le)
  {
    forall k ensures Filter(Sort(s, le), EquivTo(le, k)) == Filter(s, EquivTo(le, k)) {
      SortStableFor(s, le, k);
    }
  }

  lemma {:induction false} SortStableFor<T(!new)>(s: seq<T>, le: (T, T) -> bool, k: T)
    requires TotalPreorder(le)
    ensures Filter(Sort(s, le), EquivTo(le, k)) == Filter(s, EquivTo(le, k))
  {
    if s != [] {
      SortStableFor(s[1..], le, k);
      InsertStable(s[0], Sort(s[1..], le), le, k);
      FilterConcat([s[0]], s[1..], EquivTo(le, k));
      assert [s[0]] + s[1..] == s;
    }
  }

  // ---------------------------------------------------------------------------
  // A sorted sequence is determined by its classes of equal elements, so the
  // stable sort has exactly one result.

  lemma ClassMember<T(!new)>(r: seq<T>, t: seq<T>, le: (T, T) -> bool)
    requires TotalPreorder(le) && r != []
    requires Filter(r, EquivTo(le, r[0])) == Filter(t, EquivTo(le, r[0]))
    ensures exists j :: 0 <= j < |t| && le(t[j], r[0]) && le(r[0], t[j])
  {
    var f := EquivTo(le, r[0]);
    assert f(r[0]);
    assert r[0] in Filter(r, f);
    var x := r[0];
    assert x in Filter(t, f);
    var j :| 0 <= j < |t| && t[j] == x;
  }

  lemma HeadBelow<T(!new)>(r: seq<T>, t: seq<T>, le: (T, T) -> bool)
    requires TotalPreorder(le) && SortedBy(t, le) && r != []
    requires Filter(r, EquivTo(le, r[0])) == Filter(t, EquivTo(le, r[0]))
    ensures t != [] && le(t[0], r[0])
  {
    ClassMember(r, t, le);
    var j :| 0 <= j < |t| && le(t[j], r[0]) && le(r[0], t[j]);
    if j > 0 {
      assert le(t[0], t[j]);
    }
  }

  lemma HeadsEqual<T(!new)>(r: seq<T>, t: seq<T>, le: (T, T) -> bool)
    requires TotalPreorder(le) && r != [] && t != [] && le(r[0], t[0]) && le(t[0], r[0])
    requires Filter(r, EquivTo(le, r[0])) == Filter(t, EquivTo(le, r[0]))
    ensures r[0] == t[0]
  {
    var f := EquivTo(le, r[0]);
    assert f(t[0]) && f(r[0]);
    assert Filter(r, f) == [r[0]] + Filter(r[1..], f);
    assert Filter(t, f) == [t[0]] + Filter(t[1..], f);
    assert Filter(r, f)[0] == r[0];
  }

  lemma TailClasses<T(!new)>(r: seq<T>, t: seq<T>, le: (T, T) -> bool)
    requires r != [] && t != [] && r[0] == t[0]
    requires forall k :: Filter(r, EquivTo(le, k)) == Filter(t, EquivTo(le, k))
    ensures forall k :: Filter(r[1..], EquivTo(le, k)) == Filter(t[1..], EquivTo(le, k))
  {
    forall k ensures Filter(r[1..], EquivTo(le, k)) == Filter(t[1..], EquivTo(le, k)) {
      var f := EquivTo(le, k);
      assert Filter(r, f) == Filter(t, f);
      if f(r[0]) {
        assert [r[0]] + Filter(r[1..], f) == [r[0]] + Filter(t[1..], f);
        assert Filter(r[1..], f) == ([r[0]] + Filter(r[1..], f))[1..];
      }
    }
  }

  lemma ClassesKeepNonEmpty<T(!new)>(r: seq<T>, t: seq<T>, le: (T, T) -> bool)
    requires TotalPreorder(le)
    requires forall k :: Filter(r, EquivTo(le, k)) == Filter(t, EquivTo(le, k))
    ensures r != [] ==> t != []
  {
    if r != [] {
      ClassMember(r, t, le);
    }
  }

  /** Two sorted sequences with the same classes of equal elements are equal. */
  lemma {:induction false} SortedClassesDetermine<T(!new)>(r: seq<T>, t: seq<T>, le: (T, T) -> bool)
    requires TotalPreorder(le) && SortedBy(r, le) && SortedBy(t, le)
    requires forall k :: Filter(r, EquivTo(le, k)) == Filter(t, EquivTo(le, k))
    ensures r == t
    decreases |r| + |t|
  {
    ClassesKeepNonEmpty(r, t, le);
    ClassesKeepNonEmpty(t, r, le);
    if r != [] && t != [] {
      HeadBelow(r, t, le);
      HeadBelow(t, r, le);
      HeadsEqual(r, t, le);
      TailClasses(r, t, le);
      SortedClassesDetermine(r[1..], t[1..], le);
      assert r == [r[0]] + r[1..] && t == [t[0]] + t[1..];
    }
  }

  /**
   `Sort` is the stable sort: a sequence is sorted by `le` and keeps the input
   order of equal elements exactly when it is `Sort(s, le)`.
   */
  lemma SortIsTheStableSort<T(!new)>(r: seq<T>, s: seq<T>, le: (T, T) -> bool)
    requires TotalPreorder(le)
    ensures SortedBy(r, le) && StableFor(r, s, le) <==> r == Sort(s, le)
  {
    var t := Sort(s, le);
    SortSorted(s, le);
    SortStable(s, le);
    if SortedBy(r, le) && StableFor(r, s, le) {
      forall k ensures Filter(r, EquivTo(le, k)) == Filter(t, EquivTo(le, k)) {
        assert Filter(r, EquivTo(le, k)) == Filter(s, EquivTo(le, k));
        assert Filter(t, EquivTo(le, k)) == Filter(s, EquivTo(le, k));
      }
      SortedClassesDetermine(r, t, le);
    }
  }
}
