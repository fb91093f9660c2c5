/**
 The `App` component: the joined tables it is created with, the selection state
 its handlers update, and the derivation of the visible rows on each render.
 */
module App {
  import opened Wrappers
  import opened Entities
  import opened JsArray
  import opened JsString
  import opened StableSort
  import opened Join
  import opened Pipeline
  import opened Selection

  class ProductTable {
    /** The user list the owner buttons are drawn from. */
    const users: seq<User>
    /** `categoriesList`, the category buttons. */
    const categories: seq<DenormCategory>
    /** `productsList` as the join built it, before any render reordered it. */
    ghost const joined: seq<DenormProduct>

    /** The `products` state; a render may sort this very array in place. */
    var products: seq<DenormProduct>
    var activeUser: Option<User>
    var filterCategory: seq<string>
    var searchField: string
    var sortId: int
    var sortProduct: int
    var sortCategory: int
    var sortUser: int

    /**
     The search text is stored lower-cased, no title is selected twice, the active
     user is one of the users, every sort counter is 1, 2 or 3, and the product
     state only ever holds the joined products in some order.
     */
    ghost predicate Valid()
      reads this
    {
      && IsLower(searchField)
      && NoDuplicates(filterCategory)
      && (activeUser.Some? ==> activeUser.value in users)
      && InSortRange(sortId) && InSortRange(sortProduct) && InSortRange(sortCategory) && InSortRange(sortUser)
      && multiset(products) == multiset(joined)
    }

    /** The counter of a header column. */
    function Counter(column: Column): int
      reads this
    {
      match column
      case IdColumn => sortId
      case ProductColumn => sortProduct
      case CategoryColumn => sortCategory
      case UserColumn => sortUser
    }

    /** No filter is set, so the derivation starts from, and sorts, the state array itself. */
    predicate NothingFiltered()
      reads this
    {
      activeUser.None? && searchField == "" && filterCategory == []
    }

    /** The module-level joins followed by the initial `useState` values. */
    constructor (usersFromServer: seq<User>, categoriesFromServer: seq<Category>, productsFromServer: seq<Product>)
      ensures Valid()
      ensures users == usersFromServer
      ensures categories == CategoriesList(categoriesFromServer, usersFromServer)
      ensures products == ProductsList(productsFromServer, categories) && joined == products
      ensures activeUser == None && filterCategory == [] && searchField == ""
      ensures sortId == 1 && sortProduct == 1 && sortCategory == 1 && sortUser == 1
    {
      users := usersFromServer;
      categories := CategoriesList(categoriesFromServer, usersFromServer);
      var productsList := ProductsList(productsFromServer, CategoriesList(categoriesFromServer, usersFromServer));
      joined := productsList;
      products := productsList;
      activeUser := None;
      filterCategory := [];
      searchField := "";
      sortId, sortProduct, sortCategory, sortUser := 1, 1, 1, 1;
    }

    /** `resetAllSorts`: every counter back to neutral. */
    method ResetAllSorts()
      requires Valid()
      modifies this`sortId, this`sortProduct, this`sortCategory, this`sortUser
      ensures Valid()
      ensures sortId == 1 && sortProduct == 1 && sortCategory == 1 && sortUser == 1
    {
      sortId := 1;
      sortProduct := 1;
      sortCategory := 1;
      sortUser := 1;
    }

    /**
     A click on a sort header: all counters are reset, then the clicked one is set
     from the value it had before the click, so that write is the one that stays.
     */
    method ClickSort(column: Column)
      requires Valid()
      modifies this`sortId, this`sortProduct, this`sortCategory, this`sortUser
      ensures Valid()
      ensures Counter(column) == NextSort(old(Counter(column)))
      ensures forall c :: c != column ==> Counter(c) == 1
    {
      var previous := Counter(column);
      ResetAllSorts();
      match column
      case IdColumn => sortId := NextSort(previous);
      case ProductColumn => sortProduct := NextSort(previous);
      case CategoryColumn => sortCategory := NextSort(previous);
      case UserColumn => sortUser := NextSort(previous);
    }

    /** The "All" users button. */
    method SelectAllUsers()
      requires Valid()
      modifies this`activeUser
      ensures Valid() && activeUser == None
    {
      activeUser := None;
    }

    /** A user button; the buttons are drawn from `users`. */
    method SelectUser(user: User)
      requires Valid() && user in users
      modifies this`activeUser
      ensures Valid() && activeUser == Some(user)
    {
      activeUser := Some(user);
    }

    /** A change of the search input: the text is stored lower-cased. */
    method SetSearch(text: string)
      requires Valid()
      modifies this`searchField
      ensures Valid() && searchField == ToLowerCase(text)
    {
      searchField := ToLowerCase(text);
    }

    /** The clear button of the search input. */
    method ClearSearch()
      requires Valid()
      modifies this`searchField
      ensures Valid() && searchField == ""
    {
      searchField := "";
    }

    /** The "All" categories button. */
    method SelectAllCategories()
      requires Valid()
      modifies this`filterCategory
      ensures Valid() && filterCategory == []
    {
      filterCategory := [];
    }

    /** A category button: deselects the title when selected, otherwise appends it. */
    method ToggleCategory(title: string)
      requires Valid()
      modifies this`filterCategory
      ensures Valid() && filterCategory == Toggled(old(filterCategory), title)
    {
      ToggleKeepsNoDuplicates(filterCategory, title);
      if title in filterCategory {
        filterCategory := Filter(filterCategory, Other(title));
      } else {
        filterCategory := filterCategory + [title];
      }
    }

    /** "Reset all filters": search, user and categories are cleared; the sort counters are not. */
    method ResetAllFilters()
      requires Valid()
      modifies this`searchField, this`activeUser, this`filterCategory
      ensures Valid() && NothingFiltered()
    {
      searchField := "";
      activeUser := None;
      filterCategory := [];
    }

    /**
     One render's `visibleProducts`, for the comparator `le` standing for
     `localeCompare(...) <= 0`. The rows are `Visible` of the current state. When no
     filter is set, `visibleProducts` is the `products` state array itself and the
     name sort reorders that array: the new product state is then the sorted rows.
     */
    method Render(le: (string, string) -> bool) returns (visible: seq<DenormProduct>)
      requires Valid()
      modifies this`products
      ensures Valid()
      ensures visible == Visible(old(products), activeUser, searchField, filterCategory, sortProduct, le)
      ensures products == if NothingFiltered() && (sortProduct == 2 || sortProduct == 3) then visible else old(products)
    {
      visible := products;
      var sharesState := true;
      if activeUser.Some? {
        visible := ByOwner(products, activeUser.value);
        sharesState := false;
      }
      if searchField != "" {
        visible := BySearch(visible, searchField);
        sharesState := false;
      }
      if |filterCategory| > 0 {
        visible := NarrowByCategories(visible, filterCategory);
        sharesState := false;
      }
      assert sharesState <==> NothingFiltered();
      if sortProduct == 2 {
        SortPermutes(visible, ByName(le));
        visible := Sort(visible, ByName(le));
        if sharesState {
          products := visible;
        }
      }
      if sortProduct == 3 {
        SortPermutes(visible, ByName(Flip(le)));
        visible := Sort(visible, ByName(Flip(le)));
        if sharesState {
          products := visible;
        }
      }
    }
  }

  /**
   After "Reset all filters", a render shows every product, name-sorted as the
   unchanged sort state says; with no filter left, a name sort also reorders the
   product state itself.
   */
  method ResetThenRender(table: ProductTable, le: (string, string) -> bool) returns (visible: seq<DenormProduct>)
    requires table.Valid()
    modifies table
    ensures table.Valid() && table.NothingFiltered()
    ensures visible == NameSort(old(table.products), table.sortProduct, le)
    ensures table.products == if table.sortProduct == 2 || table.sortProduct == 3 then visible else old(table.products)
    ensures table.sortId == old(table.sortId) && table.sortProduct == old(table.sortProduct)
    ensures table.sortCategory == old(table.sortCategory) && table.sortUser == old(table.sortUser)
    ensures old(table.sortProduct) == 1 ==> visible == old(table.products)
  {
    table.ResetAllFilters();
    visible := table.Render(le);
    NothingSelectedShowsAll(old(table.products), table.sortProduct, le);
  }
}
