/**
 The pure parts of the selection handlers: the tri-state sort counter and the
 category toggle.
 */
module Selection {
  import opened JsArray

  /** The four sortable columns of the table header. */
  datatype Column = IdColumn | ProductColumn | CategoryColumn | UserColumn

  /** A sort counter: 1 neutral, 2 ascending, 3 descending. */
  predicate InSortRange(c: int) {
    1 <= c <= 3
  }

  /** The value a header click gives its column's counter: 3 wraps to 1, anything else is incremented. */
  function NextSort(c: int): (r: int)
    ensures InSortRange(c) ==> InSortRange(r)
    ensures c == 1 ==> r == 2
    ensures c == 2 ==> r == 3
    ensures c == 3 ==> r == 1
  {
    if c == 3 then 1 else c + 1
  }

  /** Three clicks on the same column bring its counter back. */
  lemma NextSortCycles(c: int)
    requires InSortRange(c)
    ensures NextSort(NextSort(NextSort(c))) == c
    ensures NextSort(c) != c
  {
  }

  /** No title is selected twice. */
  predicate NoDuplicates(s: seq<string>) {
    forall i, j :: 0 <= i < j < |s| ==> s[i] != s[j]
  }

  function Other(title: string): string -> bool {
    t => t != title
  }

  /** The category toggle: remove the title if selected, otherwise append it. */
  function Toggled(filterCategory: seq<string>, title: string): (r: seq<string>)
    ensures title in filterCategory ==> title !in r && forall t :: t != title ==> (t in r <==> t in filterCategory)
    ensures title !in filterCategory ==> r == filterCategory + [title]
  {
    if title in filterCategory then Filter(filterCategory, Other(title))
    else filterCategory + [title]
  }

  lemma NoDuplicatesCons(x: string, rest: seq<string>)
    requires x !in rest && NoDuplicates(rest)
    ensures NoDuplicates([x] + rest)
  {
    var r := [x] + rest;
    forall i, j | 0 <= i < j < |r| ensures r[i] != r[j] {
      assert r[j] == rest[j - 1];
      if i > 0 {
        assert r[i] == rest[i - 1];
      }
    }
  }

  lemma {:induction false} FilterKeepsNoDuplicates(s: seq<string>, f: string -> bool)
    requires NoDuplicates(s)
    ensures NoDuplicates(Filter(s, f))
  {
    if s != [] {
      var tail := s[1..];
      assert NoDuplicates(tail) by {
        forall i, j | 0 <= i < j < |tail| ensures tail[i] != tail[j] {
          assert tail[i] == s[i + 1] && tail[j] == s[j + 1];
        }
      }
      FilterKeepsNoDuplicates(tail, f);
      if f(s[0]) {
        assert s[0] !in tail by {
          forall k | 0 <= k < |tail| ensures tail[k] != s[0] {
            assert tail[k] == s[k + 1];
          }
        }
        NoDuplicatesCons(s[0], Filter(tail, f));
      }
    }
  }

  /** The toggle keeps the selection free of duplicates. */
  lemma ToggleKeepsNoDuplicates(filterCategory: seq<string>, title: string)
    requires NoDuplicates(filterCategory)
    ensures NoDuplicates(Toggled(filterCategory, title))
  {
    if title in filterCategory {
      FilterKeepsNoDuplicates(filterCategory, Other(title));
    }
  }

  /**
   Toggling a title twice gives back the same set of selected titles; when the title
   was not selected, it gives back exactly the same list.
   */
  lemma ToggleTwice(filterCategory: seq<string>, title: string)
    ensures forall t :: t in Toggled(Toggled(filterCategory, title), title) <==> t in filterCategory
    ensures title !in filterCategory ==> Toggled(Toggled(filterCategory, title), title) == filterCategory
  {
    if title !in filterCategory {
      FilterConcat(filterCategory, [title], Other(title));
      FilterKeepsAll(filterCategory, Other(title));
      assert Filter([title], Other(title)) == [];
    }
  }
}
