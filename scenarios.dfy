/**
 Concrete runs of the component on small tables, with the code-point order of
 strings standing in for `localeCompare`.
 */
module Scenarios {
  import opened Wrappers
  import opened Entities
  import opened StableSort
  import opened Selection
  import opened JsArray
  import opened JsString
  import opened Join
  import opened Pipeline
  import opened App

  /** Strings compared character by character by Unicode code point, a proper prefix first. */
  function CodePointLe(a: string, b: string): bool
    decreases |a|
  {
    if a == [] then true
    else if b == [] then false
    else if a[0] != b[0] then a[0] < b[0]
    else CodePointLe(a[1..], b[1..])
  }

  lemma {:induction false} CodePointLeTotal(a: string, b: string)
    ensures CodePointLe(a, b) || CodePointLe(b, a)
    decreases |a|
  {
    if a != [] && b != [] && a[0] == b[0] {
      CodePointLeTotal(a[1..], b[1..]);
    }
  }

  lemma {:induction false} CodePointLeTransitive(a: string, b: string, c: string)
    requires CodePointLe(a, b) && CodePointLe(b, c)
    ensures CodePointLe(a, c)
    decreases |a|
  {
    if a != [] && b != [] && c != [] && a[0] == b[0] && b[0] == c[0] {
      CodePointLeTransitive(a[1..], b[1..], c[1..]);
    }
  }

  /** The code-point order is a comparator of the kind the name sort expects. */
  lemma CodePointLeIsTotalPreorder()
    ensures TotalPreorder(CodePointLe)
  {
    forall a, b ensures CodePointLe(a, b) || CodePointLe(b, a) {
      CodePointLeTotal(a, b);
    }
    forall a, b, c | CodePointLe(a, b) && CodePointLe(b, c) ensures CodePointLe(a, c) {
      CodePointLeTransitive(a, b, c);
    }
  }

  const ROMA := User(1, "Roma", Male)
  const FRUITS := Category(1, "Fruits", "F", 1)
  const FRUITS_JOINED := DenormCategory(1, "Fruits", "F", Some(ROMA))
  const APPLE := DenormProduct(1, "apple", Some(FRUITS_JOINED))
  const BANANA := DenormProduct(2, "banana", Some(FRUITS_JOINED))

  lemma FruitTableJoined()
    ensures CategoriesList([FRUITS], [ROMA]) == [FRUITS_JOINED]
    ensures ProductsList([Product(1, "apple", 1), Product(2, "banana", 1)], [FRUITS_JOINED]) == [APPLE, BANANA]
  {
    assert FindByOwnerId([ROMA], 1) == Some(ROMA);
    assert FindByCategoryId([FRUITS_JOINED], 1) == Some(FRUITS_JOINED);
  }

  lemma SearchApSelectsApple()
    ensures BySearch([APPLE, BANANA], "ap") == [APPLE]
  {
    assert ToLowerCase("apple") == "apple";
    assert OccursAt("apple", "ap", 0);
    assert NameMatches(APPLE, "ap");
    assert ToLowerCase("banana") == "banana";
    forall i | 0 <= i < |"banana"| ensures "banana"[i] != 'p' {
    }
    forall i ensures !OccursAt("banana", "ap", i) {
      if 0 <= i <= 4 {
        var w := "banana"[i..i + 2];
        assert w[1] == "banana"[i + 1] != 'p';
      }
    }
    assert !NameMatches(BANANA, "ap");
    var f := SearchTest("ap");
    assert [APPLE, BANANA][1..] == [BANANA];
    assert Filter([BANANA], f) == [];
  }

  /** Typing "Ap" keeps only the product whose lower-cased name contains "ap". */
  lemma SearchScenario()
    ensures var products := ProductsList([Product(1, "apple", 1), Product(2, "banana", 1)],
                                         CategoriesList([FRUITS], [ROMA]));
      Visible(products, None, ToLowerCase("Ap"), [], 1, CodePointLe) == [APPLE]
  {
    FruitTableJoined();
    assert ToLowerCase("Ap") == "ap";
    SearchApSelectsApple();
  }

  /** Toggling "Fruits" twice leaves no category selected, so both products show. */
  lemma ToggleTwiceScenario()
    ensures Toggled(Toggled([], "Fruits"), "Fruits") == []
    ensures Visible([APPLE, BANANA], None, "", Toggled(Toggled([], "Fruits"), "Fruits"), 1, CodePointLe) == [APPLE, BANANA]
  {
    ToggleTwice([], "Fruits");
  }

  const CHERRY_DANGLING := DenormProduct(3, "cherry", None)

  lemma DanglingTableJoined()
    ensures ProductsList([Product(1, "apple", 1), Product(3, "cherry", 999)], [FRUITS_JOINED]) == [APPLE, CHERRY_DANGLING]
  {
    assert FindByCategoryId([FRUITS_JOINED], 1) == Some(FRUITS_JOINED);
    assert FindByCategoryId([FRUITS_JOINED], 999) == None;
  }

  lemma OnlyAppleOwnedByRoma()
    ensures ByOwner([APPLE, CHERRY_DANGLING], ROMA) == [APPLE]
  {
    assert OwnedBy(APPLE, ROMA) && !OwnedBy(CHERRY_DANGLING, ROMA);
    assert [APPLE, CHERRY_DANGLING][1..] == [CHERRY_DANGLING];
    assert Filter([CHERRY_DANGLING], OwnerTest(ROMA)) == [];
  }

  /**
   A product whose category id resolves to nothing is listed with no category; it
   is shown under "All" and hidden once a user is selected.
   */
  lemma DanglingCategoryScenario()
    ensures var products := ProductsList([Product(1, "apple", 1), Product(3, "cherry", 999)], [FRUITS_JOINED]);
      && products[1].category.None?
      && Visible(products, None, "", [], 1, CodePointLe) == [APPLE, CHERRY_DANGLING]
      && Visible(products, Some(ROMA), "", [], 1, CodePointLe) == [APPLE]
  {
    DanglingTableJoined();
    OnlyAppleOwnedByRoma();
  }

  const VEGETABLES := Category(2, "Vegetables", "V", 1)
  const VEGETABLES_JOINED := DenormCategory(2, "Vegetables", "V", Some(ROMA))
  const CARROT := DenormProduct(4, "carrot", Some(VEGETABLES_JOINED))

  lemma TwoCategoryTableJoined()
    ensures CategoriesList([FRUITS, VEGETABLES], [ROMA]) == [FRUITS_JOINED, VEGETABLES_JOINED]
    ensures ProductsList([Product(1, "apple", 1), Product(4, "carrot", 2)], [FRUITS_JOINED, VEGETABLES_JOINED])
         == [APPLE, CARROT]
  {
    assert FindByOwnerId([ROMA], 1) == Some(ROMA);
    UniqueIdsResolveExactly([FRUITS_JOINED, VEGETABLES_JOINED], 1, 0);
    UniqueIdsResolveExactly([FRUITS_JOINED, VEGETABLES_JOINED], 2, 1);
  }

  lemma OnlyAppleIsFruit()
    ensures ByAllTitles([APPLE, CARROT], ["Fruits"]) == [APPLE]
  {
    SingleTitleIsMembership([APPLE, CARROT], "Fruits");
    assert TitleIs(APPLE, "Fruits") && !TitleIs(CARROT, "Fruits");
    assert [APPLE, CARROT][1..] == [CARROT];
    assert Filter([CARROT], TitleTest("Fruits")) == [];
  }

  /** Selecting two categories shows nothing: each title narrows the list in turn. */
  lemma TwoCategoriesScenario()
    ensures var products := ProductsList([Product(1, "apple", 1), Product(4, "carrot", 2)],
                                         CategoriesList([FRUITS, VEGETABLES], [ROMA]));
      && Visible(products, None, "", ["Fruits"], 1, CodePointLe) == [APPLE]
      && Visible(products, None, "", ["Fruits", "Vegetables"], 1, CodePointLe) == []
  {
    TwoCategoryTableJoined();
    OnlyAppleIsFruit();
    DistinctTitlesSelectNothing([APPLE, CARROT], ["Fruits", "Vegetables"], 0, 1);
  }

  const BANANA_1 := DenormProduct(1, "banana", Some(FRUITS_JOINED))
  const CHERRY_2 := DenormProduct(2, "cherry", Some(FRUITS_JOINED))
  const APPLE_3 := DenormProduct(3, "apple", Some(FRUITS_JOINED))

  lemma ThreeFruitsJoined()
    ensures ProductsList([Product(1, "banana", 1), Product(2, "cherry", 1), Product(3, "apple", 1)], [FRUITS_JOINED])
         == [BANANA_1, CHERRY_2, APPLE_3]
  {
    assert FindByCategoryId([FRUITS_JOINED], 1) == Some(FRUITS_JOINED);
  }

  lemma ThreeFruitsSorted()
    ensures Sort([BANANA_1, CHERRY_2, APPLE_3], ByName(CodePointLe)) == [APPLE_3, BANANA_1, CHERRY_2]
    ensures Sort([APPLE_3, BANANA_1, CHERRY_2], ByName(Flip(CodePointLe))) == [CHERRY_2, BANANA_1, APPLE_3]
  {
    assert "apple"[0] == 'a' && "banana"[0] == 'b' && "cherry"[0] == 'c';
    assert CodePointLe("apple", "banana") && CodePointLe("apple", "cherry") && CodePointLe("banana", "cherry");
    assert !CodePointLe("banana", "apple") && !CodePointLe("cherry", "apple") && !CodePointLe("cherry", "banana");
    assert APPLE_3.name == "apple" && BANANA_1.name == "banana" && CHERRY_2.name == "cherry";
    var asc := ByName(CodePointLe);
    assert asc(APPLE_3, CHERRY_2) && asc(APPLE_3, BANANA_1) && asc(BANANA_1, CHERRY_2);
    assert !asc(CHERRY_2, APPLE_3) && !asc(BANANA_1, APPLE_3);
    assert Sort([APPLE_3], asc) == [APPLE_3];
    assert [CHERRY_2, APPLE_3][1..] == [APPLE_3] && [APPLE_3][1..] == [];
    assert Insert(CHERRY_2, [APPLE_3], asc) == [APPLE_3] + Insert(CHERRY_2, [], asc);
    assert Sort([CHERRY_2, APPLE_3], asc) == [APPLE_3, CHERRY_2];
    assert [BANANA_1, CHERRY_2, APPLE_3][1..] == [CHERRY_2, APPLE_3] && [APPLE_3, CHERRY_2][1..] == [CHERRY_2];
    assert Insert(BANANA_1, [APPLE_3, CHERRY_2], asc) == [APPLE_3] + Insert(BANANA_1, [CHERRY_2], asc);
    var desc := ByName(Flip(CodePointLe));
    assert desc(CHERRY_2, BANANA_1) && desc(BANANA_1, APPLE_3) && desc(CHERRY_2, APPLE_3);
    assert !desc(APPLE_3, BANANA_1) && !desc(APPLE_3, CHERRY_2) && !desc(BANANA_1, CHERRY_2);
    assert Sort([CHERRY_2], desc) == [CHERRY_2];
    assert [BANANA_1, CHERRY_2][1..] == [CHERRY_2] && [CHERRY_2][1..] == [];
    assert Insert(BANANA_1, [CHERRY_2], desc) == [CHERRY_2] + Insert(BANANA_1, [], desc);
    assert Sort([BANANA_1, CHERRY_2], desc) == [CHERRY_2, BANANA_1];
    assert [APPLE_3, BANANA_1, CHERRY_2][1..] == [BANANA_1, CHERRY_2] && [CHERRY_2, BANANA_1][1..] == [BANANA_1];
    assert Insert(APPLE_3, [CHERRY_2, BANANA_1], desc) == [CHERRY_2] + Insert(APPLE_3, [BANANA_1], desc);
    assert Insert(APPLE_3, [BANANA_1], desc) == [BANANA_1] + Insert(APPLE_3, [], desc);
  }

  /**
   Three clicks on the Product header, with a render after each, when no filter is
   set: ascending, descending, then neutral. Both sorting renders reorder the product
   state itself, so the neutral render shows the descending order of the
   ascending order, not the order the products had before.
   */
  method NameSortCycle(table: ProductTable, le: (string, string) -> bool)
    returns (ascending: seq<DenormProduct>, descending: seq<DenormProduct>, neutral: seq<DenormProduct>)
    requires table.Valid() && table.NothingFiltered() && table.sortProduct == 1
    modifies table
    ensures ascending == NameSort(old(table.products), 2, le)
    ensures descending == NameSort(ascending, 3, le)
    ensures neutral == descending && table.products == descending && table.sortProduct == 1
    ensures table.Valid() && table.NothingFiltered()
    ensures table.sortId == 1 && table.sortCategory == 1 && table.sortUser == 1
  {
    ascending := ClickNameAndRender(table, le);
    descending := ClickNameAndRender(table, le);
    neutral := ClickNameAndRender(table, le);
  }

  /** One click on the Product header followed by a render, when no filter is set. */
  method ClickNameAndRender(table: ProductTable, le: (string, string) -> bool) returns (visible: seq<DenormProduct>)
    requires table.Valid() && table.NothingFiltered()
    modifies table
    ensures table.Valid() && table.NothingFiltered()
    ensures table.sortProduct == NextSort(old(table.sortProduct))
    ensures table.sortId == 1 && table.sortCategory == 1 && table.sortUser == 1
    ensures visible == NameSort(old(table.products), table.sortProduct, le)
    ensures table.products == if table.sortProduct == 1 then old(table.products) else visible
  {
    NothingSelectedShowsAll(table.products, NextSort(table.sortProduct), le);
    table.ClickSort(ProductColumn);
    assert table.Counter(IdColumn) == 1 && table.Counter(CategoryColumn) == 1 && table.Counter(UserColumn) == 1;
    visible := table.Render(le);
  }

  /**
   Products banana (1), cherry (2), apple (3): after the cycle the table shows
   cherry, banana, apple, which is not the order it started from.
   */
  lemma NeutralDoesNotRestoreOrder()
    ensures var original := ProductsList([Product(1, "banana", 1), Product(2, "cherry", 1), Product(3, "apple", 1)],
                                         [FRUITS_JOINED]);
      && NameSort(original, 2, CodePointLe) == [APPLE_3, BANANA_1, CHERRY_2]
      && NameSort(NameSort(original, 2, CodePointLe), 3, CodePointLe) == [CHERRY_2, BANANA_1, APPLE_3]
      && NameSort(NameSort(original, 2, CodePointLe), 3, CodePointLe) != original
  {
    ThreeFruitsJoined();
    ThreeFruitsSorted();
  }
}
