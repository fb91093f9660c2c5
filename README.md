# Product categories table, modelled in Dafny

The application is one React component, `App` in `src/App.tsx`, over three fixed
tables: users, categories and products. The model covers the following.

- **The join.** At module load, every category is given its owner
  (`findByOwnerId`, `categoriesList`), and every product its category
  (`findByCategoryId`, `productsList`). An id that resolves to nothing leaves the
  field absent (`Option.None`) and the row is still kept.
- **The component state.** This is the `useState` hooks, modelled as the class
  `App.ProductTable`:
  - the product list;
  - the selected user;
  - the selected category titles;
  - the search text;
  - the four tri-state sort counters `sortId`, `sortProduct`, `sortCategory`, `sortUser`.
- **The handlers** of the buttons and the search input.
- **The derivation of `visibleProducts`** on each render:
  - the owner filter;
  - the lower-case substring search;
  - then one narrowing pass per selected category title;
  - then the name sort in ascending or descending order.

The JavaScript library calls that the component relies on are modelled as follows.

- **`filter` and `find`** are modelled as sequence functions (`JsArray`).
- **`toLowerCase` and `includes`** are modelled as string functions (`JsString`).
- **`Array.prototype.sort`** is modelled by a stable insertion sort (`StableSort`). It is
  proved to be a permutation, sorted, and stable. It is also proved to be the *only*
  sorted, stable permutation, so it stands for whatever stable algorithm the
  runtime uses.
- **`localeCompare`** is a parameter `le`, where `le(a, b)` means
  `a.localeCompare(b) <= 0`. The properties of the sort assume only that `le` is a
  total preorder. `Scenarios.CodePointLe` is a concrete order that is proved
  to be one; the worked scenarios use it.

## Behaviour of the code worth knowing

The model does what the code does in each of these cases.

- **Category filter.** The category buttons look like a multi-select where any
  selected title matches (OR). The code (`src/App.tsx:72-79`) narrows once per
  selected title, so a product must carry *every* selected title. Two different
  selected titles therefore show nothing. See `Pipeline.DistinctTitlesSelectNothing`.
- **The neutral sort does not restore the original order.** `visibleProducts`
  starts out as the `products` state array itself. When no filter is set,
  `sort` reorders that array in place. So after ascending then descending, the
  neutral state shows the descending order left in the state, which need not be the
  original order. `Render` states this, and `Scenarios.NeutralDoesNotRestoreOrder`
  shows three products where it is not.
- **Only the name column sorts.** `sortId`, `sortCategory` and `sortUser` cycle and
  reset like `sortProduct`, but only `sortProduct` changes the rows.
- **The owner test `===` compares objects.** Every category's owner is an
  element of the user list, and the active user is picked from the same list, so
  identity is modelled as equality of user ids.

## Model

| member | source | states |
|---|---|---|
| JsArray.Filter | src/App.tsx:61-63 | `filter`: the result holds exactly the elements passing the test, each as often as in the input, in input order (a subsequence), and is no longer than the input |
| JsArray.Find | src/App.tsx:13-15 | `find`: returns the first element passing the test, or `None` exactly when no element passes |
| JsArray.FirstMatchUnique | src/App.tsx:13-15 | the first match is unique, so `find` is a function of the list |
| JsArray.FilterConcat | src/App.tsx:61-63 | filtering a concatenation is the concatenation of the filtered parts |
| JsArray.FilterAgree | src/App.tsx:61-63 | two tests that agree on every element filter alike |
| JsArray.FilterKeepsAll | src/App.tsx:61-63 | a test every element passes returns the list unchanged |
| JsArray.FilterKeepsNone | src/App.tsx:61-63 | a test no element passes returns the empty list |
| JsArray.FilterFilter | src/App.tsx:74-78 | two filters in a row equal one filter by the conjunction of the tests |
| JsArray.FilterIdempotent | src/App.tsx:61-63 | filtering twice by the same test is filtering once |
| JsArray.FilterCommute | src/App.tsx:58-79 | two filters commute |
| JsString.ToLowerCase | src/App.tsx:139 | `toLowerCase`: same length; upper-case ASCII letters become their lower-case letters and every other character is unchanged; the result has no upper-case letter |
| JsString.LowerCaseFixesLower | src/App.tsx:139 | a text with no upper-case letter is its own lower-case form |
| JsString.LowerCaseIdempotent | src/App.tsx:139 | lower-casing twice is lower-casing once |
| JsString.Includes | src/App.tsx:68 | `includes`: true exactly when the search text occurs at some position of the text |
| JsString.IncludesEmpty | src/App.tsx:66-70 | every text includes the empty text |
| StableSort.Sort | src/App.tsx:82-88 | `sort` with a comparator: the result has the input's length; `SortPermutes`, `SortSorted`, `SortStable` and `SortIsTheStableSort` prove it a permutation, sorted, stable, and the only such result |
| StableSort.FlipIsTotalPreorder | src/App.tsx:86-89 | the swapped comparator of the descending sort is again a total preorder |
| StableSort.InsertPermutes | src/App.tsx:81-89 | inserting one element adds exactly that element |
| StableSort.SortPermutes | src/App.tsx:81-89 | `sort` returns a permutation of its input |
| StableSort.InsertSorted | src/App.tsx:81-89 | inserting into a sorted list keeps it sorted |
| StableSort.SortSorted | src/App.tsx:81-89 | every pair of positions of the result is in comparator order |
| StableSort.InsertStable | src/App.tsx:81-89 | inserting an element in front of its equals keeps every class of equal elements in input order |
| StableSort.SortStable | src/App.tsx:81-89 | elements that compare equal keep their input order |
| StableSort.SortStableFor | src/App.tsx:81-89 | the stability of the result, restated for the class of any given element |
| StableSort.SortedClassesDetermine | src/App.tsx:81-89 | two sorted lists with the same classes of equal elements are equal |
| StableSort.SortIsTheStableSort | src/App.tsx:81-89 | a list is sorted and stable with respect to the input exactly when it is `Sort` of the input |
| Join.FindByOwnerId | src/App.tsx:13-15 | `findByOwnerId`: `None` exactly when no user has the id, else the first user with that id |
| Join.CategoriesList | src/App.tsx:17-24 | `categoriesList`: one row per category, in order, with the same id, title and icon (the `map` callback `DenormaliseCategory`); the owner is absent exactly when no user has the `ownerId`, else it is the first user with that id |
| Join.FindByCategoryId | src/App.tsx:26-28 | `findByCategoryId`: `None` exactly when no category has the id, else the first category with that id |
| Join.ProductsList | src/App.tsx:30-36 | `productsList`: one row per product, in order, with the same id and name (the `map` callback `DenormaliseProduct`); the category is absent exactly when no category row has the `categoryId`, else it is the first row with that id |
| Join.ProductOwnerResolved | src/App.tsx:17-36 | through both joins, a product's category is absent exactly when no source category has its `categoryId`, else it is the first such category, with the owner `findByOwnerId` gives for its `ownerId` |
| Join.UniqueIdsResolveExactly | src/App.tsx:26-28 | with unique ids, the lookup returns exactly the category carrying the id |
| Pipeline.OwnedBy | src/App.tsx:62 | the owner test: the product has a category, the category has an owner, and that owner is the selected user (by id) |
| Pipeline.ByOwner | src/App.tsx:60-64 | owner filter: keeps exactly the products whose category's owner is the user, in order and with multiplicities |
| Pipeline.NameMatches | src/App.tsx:68 | the search test: the lower-cased product name includes the search text |
| Pipeline.BySearch | src/App.tsx:66-70 | search filter: keeps exactly the products whose lower-cased name includes the search text, in order and with multiplicities |
| Pipeline.TitleIs | src/App.tsx:76 | one category test: the product has a category and its title is the given one |
| Pipeline.ByTitle | src/App.tsx:75-77 | one category pass: keeps exactly the products whose category title is the given one, in order and with multiplicities |
| Pipeline.ByAllTitles | src/App.tsx:72-79 | all category passes: keeps exactly the products whose category title equals every selected title, in order and with multiplicities |
| Pipeline.NoTitlesKeepAll | src/App.tsx:72 | with no title selected the category stage passes everything through |
| Pipeline.NarrowStep | src/App.tsx:74-78 | one more pass of the loop equals the filter by the titles so far plus the next one |
| Pipeline.NarrowPrefix | src/App.tsx:74-78 | the pass for the selection's next title turns the filter by the titles so far into the filter by one title more |
| Pipeline.NarrowByCategories | src/App.tsx:72-79 | the `for ... of` loop over the selected titles computes `ByAllTitles` |
| Pipeline.NameSort | src/App.tsx:81-89 | the sort stage returns a permutation; with `sortProduct` neither 2 nor 3 it returns the list unchanged |
| Pipeline.ByNameIsTotalPreorder | src/App.tsx:83 | comparing products by name is a total preorder when `le` is |
| Pipeline.StableByName | src/App.tsx:81-89 | a stable sort by name keeps products of equal name in input order |
| Pipeline.NameSortAscending | src/App.tsx:81-84 | `sortProduct` 2: a permutation, non-decreasing by name, with equal names kept in input order |
| Pipeline.NameSortDescending | src/App.tsx:86-89 | `sortProduct` 3: a permutation, non-increasing by name, with equal names kept in input order |
| Pipeline.NameSortIsUnique | src/App.tsx:81-89 | a sorted, stable result by name, ascending or descending, is exactly the corresponding `NameSort` |
| Pipeline.Visible | src/App.tsx:58-89 | `visibleProducts`: the guarded owner, search and category passes, then the name sort; the rows are drawn from the products, none more often than there |
| Pipeline.VisibleIsOneFilter | src/App.tsx:58-89 | the chain of guarded filters equals a single filter by the conjunction of the active tests, then the sort |
| Pipeline.VisibleContents | src/App.tsx:58-89 | the visible rows hold each product passing all active filters as often as the input does, and no others; without a sort they are in input order |
| Pipeline.NothingSelectedShowsAll | src/App.tsx:58-89 | with no filter selected the rows are the sort of all products, and all products unchanged when the sort is neutral |
| Pipeline.EmptySearchKeepsAll | src/App.tsx:66-70 | an empty search text keeps every product |
| Pipeline.ByOwnerIdempotent | src/App.tsx:60-64 | the owner filter applied twice equals once |
| Pipeline.BySearchIdempotent | src/App.tsx:66-70 | the search filter applied twice equals once |
| Pipeline.ByAllTitlesIdempotent | src/App.tsx:72-79 | the category stage applied twice equals once |
| Pipeline.OwnerSearchCommute | src/App.tsx:58-70 | owner filter and search filter commute |
| Pipeline.CategoryCommutes | src/App.tsx:58-79 | the category stage commutes with the owner filter and with the search filter |
| Pipeline.SingleTitleIsMembership | src/App.tsx:72-79 | with one selected title the category stage is the single title test |
| Pipeline.DistinctTitlesSelectNothing | src/App.tsx:72-79 | two different selected titles leave no product |
| Pipeline.NoCategoryNeverSelected | src/App.tsx:60-79 | a product without a category never passes the owner filter or a non-empty category selection |
| Selection.NextSort | src/App.tsx:249-255 | a header click advances its counter 1 to 2 to 3 to 1 and stays in range |
| Selection.NextSortCycles | src/App.tsx:249-255 | three clicks on one header restore its counter, and each click changes it |
| Selection.Toggled | src/App.tsx:195-205 | a category click removes the title when selected (other titles kept), else appends it |
| Selection.FilterKeepsNoDuplicates | src/App.tsx:197-198 | removing titles keeps the selection free of duplicates |
| Selection.ToggleKeepsNoDuplicates | src/App.tsx:195-205 | a category click keeps each title selected at most once |
| Selection.ToggleTwice | src/App.tsx:195-205 | clicking a category twice restores the set of selected titles, and the exact list when it was not selected |
| App.ProductTable.constructor | src/App.tsx:17-49 | initial state: the joined tables, no user, no category, empty search, all counters neutral |
| App.ProductTable.ResetAllSorts | src/App.tsx:51-56 | `resetAllSorts`: all four counters back to 1 |
| App.ProductTable.ClickSort | src/App.tsx:249-255 | a header click, for the ID header here and alike for the Product, Category and User headers at lines 283-289, 315-321 and 347-353: the clicked counter advances from its value before the click, every other one is 1 |
| App.ProductTable.SelectAllUsers | src/App.tsx:107-109 | the "All" users button clears the active user |
| App.ProductTable.SelectUser | src/App.tsx:121-123 | a user button makes that user active |
| App.ProductTable.SetSearch | src/App.tsx:138-141 | the search input stores the lower-cased text |
| App.ProductTable.ClearSearch | src/App.tsx:156-158 | the clear button empties the search text |
| App.ProductTable.SelectAllCategories | src/App.tsx:177-179 | the "All" categories button clears the selection |
| App.ProductTable.ToggleCategory | src/App.tsx:195-205 | a category button toggles its title in the selection |
| App.ProductTable.ResetAllFilters | src/App.tsx:218-222 | "Reset all filters" clears search, user and categories, and keeps the sort counters |
| App.ProductTable.Render | src/App.tsx:58-89 | a render's rows are `Visible` of the state; with no filter set and a name sort active, the product state itself is left in the sorted order |
| App.ResetThenRender | src/App.tsx:218-222 | after a reset no filter is set and the sort counters are unchanged; the render shows the name sort of all products (the products themselves when the sort is neutral), and with sort state 2 or 3 the product state itself is left in that sorted order |
| Scenarios.CodePointLeIsTotalPreorder | src/App.tsx:83 | the code-point order is a lawful stand-in for `localeCompare` |
| Scenarios.SearchScenario | src/App.tsx:66-70 | searching "ap" over apple and banana shows only apple |
| Scenarios.ToggleTwiceScenario | src/App.tsx:195-205 | selecting and deselecting "Fruits" shows all products again |
| Scenarios.DanglingCategoryScenario | src/App.tsx:30-36 | a product whose category id resolves to nothing is listed, without a category |
| Scenarios.TwoCategoriesScenario | src/App.tsx:72-79 | selecting "Fruits" shows only the fruit, and also selecting "Vegetables" shows nothing |
| Scenarios.ThreeFruitsSorted | src/App.tsx:81-89 | banana, cherry, apple sort to apple, banana, cherry, and descending to cherry, banana, apple |
| Scenarios.ClickNameAndRender | src/App.tsx:283-289 | with no filter set, one click on the name header advances its counter and sets the other three to 1; no filter is set afterwards, and the render shows, and leaves in the state, the name sort of the products |
| Scenarios.NameSortCycle | src/App.tsx:81-89 | three clicks on the name header with no filter: ascending, then descending, then neutral shows the descending order left in the state; afterwards no filter is set and every counter is 1 |
| Scenarios.NeutralDoesNotRestoreOrder | src/App.tsx:81-89 | on banana, cherry, apple, the neutral state after ascending and descending is not the original order |

## Left out

- The JSX markup, `classnames` styling, icons, the sex-based colouring of owner
  names, and the "No products matching selected criteria" message: these are
  presentation only.
- React's scheduling. Each handler's state updates are applied in order before
  the next render, which is the order within one synchronous handler.
- The data modules `src/api/users`, `src/api/products` and `src/api/categories`
  are not part of this model. The tables are constructor parameters.
- `localeCompare`'s locale rules. The comparator is abstract, and only its
  total-preorder laws are used.
- JsString.ToLowerCase: lower-cases ASCII letters only. Locale-dependent and
  non-ASCII case mappings of the runtime are not modelled.
- The runtime's sorting algorithm. It is represented by its unique stable
  result; the ECMAScript standard requires `sort` to be stable.
- Pipeline.ByOwner: compares users by id, not by object identity. This agrees
  with the code as long as only one user object carries a given id.
- The `sortId`, `sortCategory` and `sortUser` counters only pick the header
  icons in the code. The model keeps and cycles them but they select no order.
