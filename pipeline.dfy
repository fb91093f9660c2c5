/**
 The derivation of the visible rows from the joined product list and the current
 selection: owner filter, search filter, category narrowing, then the name sort.
 */
module Pipeline {
  import opened Wrappers
  import opened Entities
  import opened JsArray
  import opened JsString
  import opened StableSort

  // ---------------------------------------------------------------------------
  // The owner filter. The code compares the owner object with the selected user
  // object; users are identified here by their id.

  predicate OwnedBy(p: DenormProduct, u: User) {
    p.category.Some? && p.category.value.owner.Some? && p.category.value.owner.value.id == u.id
  }

  function OwnerTest(u: User): DenormProduct -> bool {
    p => OwnedBy(p, u)
  }

  /** The products whose category is owned by `u`, in input order, each as often as in the input. */
  function ByOwner(products: seq<DenormProduct>, u: User): (r: seq<DenormProduct>)
    ensures forall p :: p in r <==> p in products && OwnedBy(p, u)
    ensures forall p :: multiset(r)[p] == if OwnedBy(p, u) then multiset(products)[p] else 0
    ensures Subsequence(r, products)
  {
    Filter(products, OwnerTest(u))
  }

  // ---------------------------------------------------------------------------
  // The search filter: the lower-cased name must contain the search text.

  predicate NameMatches(p: DenormProduct, searchField: string) {
    Includes(ToLowerCase(p.name), searchField)
  }

  function SearchTest(searchField: string): DenormProduct -> bool {
    p => NameMatches(p, searchField)
  }

  /** The products whose lower-cased name contains `searchField`, in input order. */
  function BySearch(products: seq<DenormProduct>, searchField: string): (r: seq<DenormProduct>)
    ensures forall p :: p in r <==>
      p in products && exists i :: OccursAt(ToLowerCase(p.name), searchField, i)
    ensures forall p :: multiset(r)[p] == if NameMatches(p, searchField) then multiset(products)[p] else 0
    ensures Subsequence(r, products)
  {
    Filter(products, SearchTest(searchField))
  }

  // ---------------------------------------------------------------------------
  // The category filter, one narrowing pass per selected title.

  predicate TitleIs(p: DenormProduct, title: string) {
    p.category.Some? && p.category.value.title == title
  }

  function TitleTest(title: string): DenormProduct -> bool {
    p => TitleIs(p, title)
  }

  /** One narrowing pass: the products whose category has the given title. */
  function ByTitle(products: seq<DenormProduct>, title: string): (r: seq<DenormProduct>)
    ensures forall p :: p in r <==> p in products && TitleIs(p, title)
    ensures forall p :: multiset(r)[p] == if TitleIs(p, title) then multiset(products)[p] else 0
    ensures Subsequence(r, products)
  {
    Filter(products, TitleTest(title))
  }

  /** The product's category title equals every one of the titles. */
  predicate MatchesAllTitles(p: DenormProduct, titles: seq<string>) {
    forall i :: 0 <= i < |titles| ==> TitleIs(p, titles[i])
  }

  function AllTitlesTest(titles: seq<string>): DenormProduct -> bool {
    p => MatchesAllTitles(p, titles)
  }

  /** What all the narrowing passes leave: the products whose title equals every selected title. */
  function ByAllTitles(products: seq<DenormProduct>, titles: seq<string>): (r: seq<DenormProduct>)
    ensures forall p :: p in r <==> p in products && MatchesAllTitles(p, titles)
    ensures forall p :: multiset(r)[p] == if MatchesAllTitles(p, titles) then multiset(products)[p] else 0
    ensures Subsequence(r, products)
  {
    Filter(products, AllTitlesTest(titles))
  }

  lemma NoTitlesKeepAll(products: seq<DenormProduct>)
    ensures ByAllTitles(products, []) == products
  {
    FilterKeepsAll(products, AllTitlesTest([]));
  }

  /** One more narrowing pass is one more title to match. */
  lemma NarrowStep(products: seq<DenormProduct>, titles: seq<string>, title: string)
    ensures ByTitle(ByAllTitles(products, titles), title) == ByAllTitles(products, titles + [title])
  {
    var ts := titles + [title];
    forall i | 0 <= i < |products|
      ensures AllTitlesTest(ts)(products[i]) == (AllTitlesTest(titles)(products[i]) && TitleTest(title)(products[i]))
    {
      var p := products[i];
      if MatchesAllTitles(p, titles) && TitleIs(p, title) {
        forall j | 0 <= j < |ts| ensures TitleIs(p, ts[j]) {
          if j < |titles| { assert ts[j] == titles[j]; }
        }
      }
      if MatchesAllTitles(p, ts) {
        assert TitleIs(p, ts[|titles|]);
        forall j | 0 <= j < |titles| ensures TitleIs(p, titles[j]) {
          assert ts[j] == titles[j];
        }
      }
    }
    FilterFilter(products, AllTitlesTest(titles), TitleTest(title), AllTitlesTest(ts));
  }

  /** `NarrowStep` for the prefixes of the selection the loop walks through. */
  lemma NarrowPrefix(products: seq<DenormProduct>, filterCategory: seq<string>, i: int)
    requires 0 <= i < |filterCategory|
    ensures ByTitle(ByAllTitles(products, filterCategory[..i]), filterCategory[i]) == ByAllTitles(products, filterCategory[..i + 1])
  {
    NarrowStep(products, filterCategory[..i], filterCategory[i]);
    assert filterCategory[..i + 1] == filterCategory[..i] + [filterCategory[i]];
  }

  /**
   The category loop: for each selected title in turn, narrow the current list to
   the products of that title. The result is the products matching every title.
   */
  method NarrowByCategories(products: seq<DenormProduct>, filterCategory: seq<string>)
    returns (visible: seq<DenormProduct>)
    ensures visible == ByAllTitles(products, filterCategory)
  {
    NoTitlesKeepAll(products);
    visible := products;
    if |filterCategory| > 0 {
      for i := 0 to |filterCategory|
        invariant visible == ByAllTitles(products, filterCategory[..i])
      {
        NarrowPrefix(products, filterCategory, i);
        visible := ByTitle(visible, filterCategory[i]);
      }
      assert filterCategory[..|filterCategory|] == filterCategory;
    }
  }

  // ---------------------------------------------------------------------------
  // The name sort. `le(a, b)` stands for `a.localeCompare(b) <= 0`.

  /** The comparator of the ascending sort, on product names. */
  function ByName(le: (string, string) -> bool): (DenormProduct, DenormProduct) -> bool {
    (a: DenormProduct, b: DenormProduct) => le(a.name, b.name)
  }

  /** The products whose name compares equal to `name`. */
  function SameName(le: (string, string) -> bool, name: string): DenormProduct -> bool {
    (p: DenormProduct) => le(p.name, name) && le(name, p.name)
  }

  /**
   State 2 sorts ascending by name, state 3 descending by name (the comparator with
   its arguments swapped), any other state leaves the order alone.
   */
  function NameSort(products: seq<DenormProduct>, sortProduct: int, le: (string, string) -> bool): (r: seq<DenormProduct>)
    ensures multiset(r) == multiset(products)
    ensures sortProduct != 2 && sortProduct != 3 ==> r == products
  {
    if sortProduct == 2 then
      SortPermutes(products, ByName(le));
      Sort(products, ByName(le))
    else if sortProduct == 3 then
      SortPermutes(products, ByName(Flip(le)));
      Sort(products, ByName(Flip(le)))
    else
      products
  }

  lemma ByNameIsTotalPreorder(le: (string, string) -> bool)
    requires TotalPreorder(le)
    ensures TotalPreorder(ByName(le))
  {
    var f := ByName(le);
    forall a, b ensures f(a, b) || f(b, a) {
      assert le(a.name, b.name) || le(b.name, a.name);
    }
    forall a, b, c | f(a, b) && f(b, c) ensures f(a, c) {
      assert le(a.name, b.name) && le(b.name, c.name);
    }
  }

  /** The classes of equal elements under the product comparator are the classes of equal names. */
  lemma StableByName(r: seq<DenormProduct>, s: seq<DenormProduct>, le: (string, string) -> bool, cmp: (DenormProduct, DenormProduct) -> bool)
    requires cmp == ByName(le) || cmp == ByName(Flip(le))
    requires StableFor(r, s, cmp)
    ensures forall name :: Filter(r, SameName(le, name)) == Filter(s, SameName(le, name))
  {
    forall name ensures Filter(r, SameName(le, name)) == Filter(s, SameName(le, name)) {
      var k := DenormProduct(0, name, None);
      assert Filter(r, EquivTo(cmp, k)) == Filter(s, EquivTo(cmp, k));
      FilterAgree(r, EquivTo(cmp, k), SameName(le, name));
      FilterAgree(s, EquivTo(cmp, k), SameName(le, name));
    }
  }

  /**
   Ascending: a permutation of the input, non-decreasing by name, and products with
   equal names keep their input order.
   */
  lemma NameSortAscending(products: seq<DenormProduct>, le: (string, string) -> bool)
    requires TotalPreorder(le)
    ensures var r := NameSort(products, 2, le);
      && multiset(r) == multiset(products)
      && (forall i, j :: 0 <= i < j < |r| ==> le(r[i].name, r[j].name))
      && (forall name :: Filter(r, SameName(le, name)) == Filter(products, SameName(le, name)))
  {
    var cmp := ByName(le);
    ByNameIsTotalPreorder(le);
    SortSorted(products, cmp);
    SortStable(products, cmp);
    StableByName(Sort(products, cmp), products, le, cmp);
  }

  /**
   Descending: a permutation of the input, non-increasing by name, and products with
   equal names keep their input order.
   */
  lemma NameSortDescending(products: seq<DenormProduct>, le: (string, string) -> bool)
    requires TotalPreorder(le)
    ensures var r := NameSort(products, 3, le);
      && multiset(r) == multiset(products)
      && (forall i, j :: 0 <= i < j < |r| ==> le(r[j].name, r[i].name))
      && (forall name :: Filter(r, SameName(le, name)) == Filter(products, SameName(le, name)))
  {
    var cmp := ByName(Flip(le));
    FlipIsTotalPreorder(le);
    ByNameIsTotalPreorder(Flip(le));
    SortSorted(products, cmp);
    SortStable(products, cmp);
    StableByName(Sort(products, cmp), products, le, cmp);
  }

  /**
   The name sort is the only order with those properties: whichever stable
   algorithm the runtime uses, a sorted and stable result is `NameSort`'s.
   */
  lemma NameSortIsUnique(products: seq<DenormProduct>, r: seq<DenormProduct>, le: (string, string) -> bool)
    requires TotalPreorder(le)
    ensures SortedBy(r, ByName(le)) && StableFor(r, products, ByName(le)) <==> r == NameSort(products, 2, le)
    ensures SortedBy(r, ByName(Flip(le))) && StableFor(r, products, ByName(Flip(le))) <==> r == NameSort(products, 3, le)
  {
    ByNameIsTotalPreorder(le);
    SortIsTheStableSort(r, products, ByName(le));
    FlipIsTotalPreorder(le);
    ByNameIsTotalPreorder(Flip(le));
    SortIsTheStableSort(r, products, ByName(Flip(le)));
  }

  // ---------------------------------------------------------------------------
  // The whole derivation.

  /**
   `visibleProducts`: each filter runs only when its part of the selection is set,
   each narrows the output of the one before, and the name sort runs last.
   */
  function Visible(products: seq<DenormProduct>, activeUser: Option<User>, searchField: string,
                   filterCategory: seq<string>, sortProduct: int, le: (string, string) -> bool): (r: seq<DenormProduct>)
    ensures multiset(r) <= multiset(products)
  {
    var byOwner := if activeUser.Some? then ByOwner(products, activeUser.value) else products;
    var bySearch := if searchField != "" then BySearch(byOwner, searchField) else byOwner;
    var byCategory := if |filterCategory| > 0 then ByAllTitles(bySearch, filterCategory) else bySearch;
    NameSort(byCategory, sortProduct, le)
  }

  /** A product survives the three filters of the given selection. */
  predicate Passes(p: DenormProduct, activeUser: Option<User>, searchField: string, filterCategory: seq<string>) {
    && (activeUser.Some? ==> OwnedBy(p, activeUser.value))
    && NameMatches(p, searchField)
    && MatchesAllTitles(p, filterCategory)
  }

  function PassesTest(activeUser: Option<User>, searchField: string, filterCategory: seq<string>): DenormProduct -> bool {
    p => Passes(p, activeUser, searchField, filterCategory)
  }

  /**
   The three successive passes are one filter by the conjunction of their tests:
   the visible rows are the name sort of the products that pass every active
   filter, kept in input order.
   */
  lemma VisibleIsOneFilter(products: seq<DenormProduct>, activeUser: Option<User>, searchField: string,
                           filterCategory: seq<string>, sortProduct: int, le: (string, string) -> bool)
    ensures Visible(products, activeUser, searchField, filterCategory, sortProduct, le)
         == NameSort(Filter(products, PassesTest(activeUser, searchField, filterCategory)), sortProduct, le)
  {
    var ownerTest: DenormProduct -> bool := p => activeUser.Some? ==> OwnedBy(p, activeUser.value);
    var ownerSearchTest: DenormProduct -> bool := p => ownerTest(p) && NameMatches(p, searchField);
    var byOwner := if activeUser.Some? then ByOwner(products, activeUser.value) else products;
    assert byOwner == Filter(products, ownerTest) by {
      if activeUser.Some? {
        FilterAgree(products, OwnerTest(activeUser.value), ownerTest);
      } else {
        FilterKeepsAll(products, ownerTest);
      }
    }
    var bySearch := if searchField != "" then BySearch(byOwner, searchField) else byOwner;
    assert bySearch == Filter(products, ownerSearchTest) by {
      if searchField != "" {
        FilterFilter(products, ownerTest, SearchTest(searchField), ownerSearchTest);
      } else {
        forall i | 0 <= i < |products| ensures ownerSearchTest(products[i]) == ownerTest(products[i]) {
          IncludesEmpty(ToLowerCase(products[i].name));
        }
        FilterAgree(products, ownerSearchTest, ownerTest);
      }
    }
    var byCategory := if |filterCategory| > 0 then ByAllTitles(bySearch, filterCategory) else bySearch;
    var all := PassesTest(activeUser, searchField, filterCategory);
    assert byCategory == Filter(products, all) by {
      if |filterCategory| > 0 {
        FilterFilter(products, ownerSearchTest, AllTitlesTest(filterCategory), all);
      } else {
        FilterAgree(products, ownerSearchTest, all);
      }
    }
  }

  /**
   What is visible: each product as often as in the input when it passes every
   active filter, otherwise not at all; with the name sort off, in input order.
   */
  lemma VisibleContents(products: seq<DenormProduct>, activeUser: Option<User>, searchField: string,
                        filterCategory: seq<string>, sortProduct: int, le: (string, string) -> bool)
    ensures var r := Visible(products, activeUser, searchField, filterCategory, sortProduct, le);
      && (forall p :: multiset(r)[p] ==
            if Passes(p, activeUser, searchField, filterCategory) then multiset(products)[p] else 0)
      && (sortProduct != 2 && sortProduct != 3 ==> Subsequence(r, products))
  {
    VisibleIsOneFilter(products, activeUser, searchField, filterCategory, sortProduct, le);
  }

  /** With nothing selected, the visible rows are all products, name-sorted as the sort state says. */
  lemma NothingSelectedShowsAll(products: seq<DenormProduct>, sortProduct: int, le: (string, string) -> bool)
    ensures Visible(products, None, "", [], sortProduct, le) == NameSort(products, sortProduct, le)
    ensures sortProduct == 1 ==> Visible(products, None, "", [], sortProduct, le) == products
  {
  }

  // ---------------------------------------------------------------------------
  // Properties of the individual filters.

  lemma EmptySearchKeepsAll(products: seq<DenormProduct>)
    ensures BySearch(products, "") == products
  {
    forall i | 0 <= i < |products| ensures SearchTest("")(products[i]) {
      IncludesEmpty(ToLowerCase(products[i].name));
    }
    FilterKeepsAll(products, SearchTest(""));
  }

  lemma ByOwnerIdempotent(products: seq<DenormProduct>, u: User)
    ensures ByOwner(ByOwner(products, u), u) == ByOwner(products, u)
  {
    FilterIdempotent(products, OwnerTest(u));
  }

  lemma BySearchIdempotent(products: seq<DenormProduct>, searchField: string)
    ensures BySearch(BySearch(products, searchField), searchField) == BySearch(products, searchField)
  {
    FilterIdempotent(products, SearchTest(searchField));
  }

  lemma ByAllTitlesIdempotent(products: seq<DenormProduct>, titles: seq<string>)
    ensures ByAllTitles(ByAllTitles(products, titles), titles) == ByAllTitles(products, titles)
  {
    FilterIdempotent(products, AllTitlesTest(titles));
  }

  /** The owner and search filters may run in either order. */
  lemma OwnerSearchCommute(products: seq<DenormProduct>, u: User, searchField: string)
    ensures BySearch(ByOwner(products, u), searchField) == ByOwner(BySearch(products, searchField), u)
  {
    FilterCommute(products, OwnerTest(u), SearchTest(searchField));
  }

  /** The category narrowing commutes with the owner filter and with the search filter. */
  lemma CategoryCommutes(products: seq<DenormProduct>, u: User, searchField: string, titles: seq<string>)
    ensures ByAllTitles(ByOwner(products, u), titles) == ByOwner(ByAllTitles(products, titles), u)
    ensures ByAllTitles(BySearch(products, searchField), titles) == BySearch(ByAllTitles(products, titles), searchField)
  {
    FilterCommute(products, OwnerTest(u), AllTitlesTest(titles));
    FilterCommute(products, SearchTest(searchField), AllTitlesTest(titles));
  }

  /** With one title selected, the narrowing is a plain title match. */
  lemma SingleTitleIsMembership(products: seq<DenormProduct>, title: string)
    ensures ByAllTitles(products, [title]) == ByTitle(products, title)
  {
    forall k | 0 <= k < |products|
      ensures AllTitlesTest([title])(products[k]) == TitleTest(title)(products[k])
    {
      assert MatchesAllTitles(products[k], [title]) <==> TitleIs(products[k], [title][0]);
    }
    FilterAgree(products, AllTitlesTest([title]), TitleTest(title));
  }

  /** With two different titles selected, nothing survives the narrowing. */
  lemma DistinctTitlesSelectNothing(products: seq<DenormProduct>, titles: seq<string>, i: int, j: int)
    requires 0 <= i < |titles| && 0 <= j < |titles| && titles[i] != titles[j]
    ensures ByAllTitles(products, titles) == []
  {
    forall k | 0 <= k < |products| ensures !AllTitlesTest(titles)(products[k]) {
      assert !(TitleIs(products[k], titles[i]) && TitleIs(products[k], titles[j]));
    }
    FilterKeepsNone(products, AllTitlesTest(titles));
  }

  /** A product without a category passes neither an owner filter nor a non-empty category selection. */
  lemma NoCategoryNeverSelected(products: seq<DenormProduct>, p: DenormProduct, u: User, titles: seq<string>)
    requires p.category.None?
    ensures p !in ByOwner(products, u)
    ensures |titles| > 0 ==> p !in ByAllTitles(products, titles)
  {
    if |titles| > 0 {
      assert !TitleIs(p, titles[0]);
    }
  }
}
