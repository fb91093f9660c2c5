/**
 The two array built-ins the catalogue relies on for its joins and filters,
 `Array.prototype.filter` and `Array.prototype.find`, as functions on sequences,
 with the facts about them that the pipeline's proofs use.
 */
module JsArray {
  import opened Wrappers

  /** `r` is obtained from `s` by deleting some elements, keeping the order of the rest. */
  predicate Subsequence<T(==,!new)>(r: seq<T>, s: seq<T>)
    decreases |s|
  {
    if r == [] then true
    else if s == [] then false
    else (r[0] == s[0] && Subsequence(r[1..], s[1..])) || Subsequence(r, s[1..])
  }

  /** `s.filter(f)`: the elements of `s` that satisfy `f`, each as often as in `s`, in order. */
  function Filter<T(==,!new)>(s: seq<T>, f: T -> bool): (r: seq<T>)
    ensures |r| <= |s|
    ensures forall x :: x in r <==> x in s && f(x)
    ensures forall x :: multiset(r)[x] == if f(x) then multiset(s)[x] else 0
    ensures Subsequence(r, s)
  {
    if s == [] then []
    else
      assert s == [s[0]] + s[1..];
      if f(s[0]) then [s[0]] + Filter(s[1..], f) else Filter(s[1..], f)
  }

  /** `v` is what `s.find(f)` must return: the first element satisfying `f`, or nothing. */
  ghost predicate IsFirstMatch<T(!new)>(s: seq<T>, f: T -> bool, v: Option<T>) {
    match v
    case None => forall i :: 0 <= i < |s| ==> !f(s[i])
    case Some(x) =>
      exists i :: 0 <= i < |s| && s[i] == x && f(x) && forall j :: 0 <= j < i ==> !f(s[j])
  }

  /** `s.find(f)`. */
  function Find<T(==,!new)>(s: seq<T>, f: T -> bool): (v: Option<T>)
    ensures IsFirstMatch(s, f, v)
  {
    if s == [] then None
    else if f(s[0]) then Some(s[0])
    else
      var v := Find(s[1..], f);
      assert v.Some? ==> (exists i :: 0 <= i < |s| && s[i] == v.value && f(v.value) &&
                                       forall j :: 0 <= j < i ==> !f(s[j])) by {
        if v.Some? {
          var i :| 0 <= i < |s[1..]| && s[1..][i] == v.value && f(v.value) &&
            forall j :: 0 <= j < i ==> !f(s[1..][j]);
          assert s[i + 1] == v.value;
          assert forall j :: 0 <= j < i + 1 ==> !f(s[j]) by {
            forall j | 0 <= j < i + 1 ensures !f(s[j]) {
              if j > 0 { assert s[j] == s[1..][j - 1]; }
            }
          }
        }
      }
      v
  }

  /** The first match is unique: `IsFirstMatch` pins down the value of `find`. */
  lemma FirstMatchUnique<T(!new)>(s: seq<T>, f: T -> bool, v: Option<T>, w: Option<T>)
    requires IsFirstMatch(s, f, v) && IsFirstMatch(s, f, w)
    ensures v == w
  {
    if v.Some? && w.Some? {
      var i :| 0 <= i < |s| && s[i] == v.value && f(v.value) && forall j :: 0 <= j < i ==> !f(s[j]);
      var k :| 0 <= k < |s| && s[k] == w.value && f(w.value) && forall j :: 0 <= j < k ==> !f(s[j]);
      assert !(i < k) && !(k < i);
    }
  }

  /** Filtering distributes over concatenation: it is order-preserving. */
  lemma {:induction false} FilterConcat<T(!new)>(a: seq<T>, b: seq<T>, f: T -> bool)
    ensures Filter(a + b, f) == Filter(a, f) + Filter(b, f)
  {
    if a == [] {
      assert a + b == b;
    } else {
      assert (a + b)[0] == a[0];
      assert (a + b)[1..] == a[1..] + b;
      FilterConcat(a[1..], b, f);
    }
  }

  /** Two predicates that agree on every element of `s` filter it alike. */
  lemma {:induction false} FilterAgree<T(!new)>(s: seq<T>, f: T -> bool, g: T -> bool)
    requires forall i :: 0 <= i < |s| ==> f(s[i]) == g(s[i])
    ensures Filter(s, f) == Filter(s, g)
  {
    if s != [] {
      FilterAgree(s[1..], f, g);
    }
  }

  /** Filtering keeps everything when every element satisfies the predicate. */
  lemma {:induction false} FilterKeepsAll<T(!new)>(s: seq<T>, f: T -> bool)
    requires forall i :: 0 <= i < |s| ==> f(s[i])
    ensures Filter(s, f) == s
  {
    if s != [] {
      FilterKeepsAll(s[1..], f);
    }
  }

  /** Filtering keeps nothing when no element satisfies the predicate. */
  lemma {:induction false} FilterKeepsNone<T(!new)>(s: seq<T>, f: T -> bool)
    requires forall i :: 0 <= i < |s| ==> !f(s[i])
    ensures Filter(s, f) == []
  {
    if s != [] {
      FilterKeepsNone(s[1..], f);
    }
  }

  /** Two filters in succession are one filter by the conjunction. */
  lemma {:induction false} FilterFilter<T(!new)>(s: seq<T>, f: T -> bool, g: T -> bool, h: T -> bool)
    requires forall i :: 0 <= i < |s| ==> h(s[i]) == (f(s[i]) && g(s[i]))
    ensures Filter(Filter(s, f), g) == Filter(s, h)
  {
    if s != [] {
      FilterFilter(s[1..], f, g, h);
    }
  }

  /** Filtering twice by the same predicate is filtering once. */
  lemma FilterIdempotent<T(!new)>(s: seq<T>, f: T -> bool)
    ensures Filter(Filter(s, f), f) == Filter(s, f)
  {
    var r := Filter(s, f);
    assert forall i :: 0 <= i < |r| ==> f(r[i]) by {
      forall i | 0 <= i < |r| ensures f(r[i]) {
        assert r[i] in r;
      }
    }
    FilterKeepsAll(r, f);
  }

  /** Two filters may be applied in either order. */
  lemma FilterCommute<T(!new)>(s: seq<T>, f: T -> bool, g: T -> bool)
    ensures Filter(Filter(s, f), g) == Filter(Filter(s, g), f)
  {
    var h := (x: T) => f(x) && g(x);
    FilterFilter(s, f, g, h);
    FilterFilter(s, g, f, h);
  }
}
