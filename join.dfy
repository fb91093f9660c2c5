/**
 The join that runs once at start-up: every category gets its owner resolved
 (`categoriesList`), then every product gets its category resolved (`productsList`).
 A dangling reference resolves to an absent value; resolution never fails.
 */
module Join {
  import opened Wrappers
  import opened Entities
  import opened JsArray

  /** `findByOwnerId`: the first user with the given id, or nothing. */
  function FindByOwnerId(users: seq<User>, id: int): (r: Option<User>)
    ensures r.None? <==> forall i :: 0 <= i < |users| ==> users[i].id != id
    ensures r.Some? ==> exists i :: 0 <= i < |users| && users[i] == r.value && r.value.id == id &&
                                    forall j :: 0 <= j < i ==> users[j].id != id
  {
    Find(users, (u: User) => u.id == id)
  }

  /** A category with its owner looked up by `ownerId`. */
  function DenormaliseCategory(category: Category, users: seq<User>): DenormCategory {
    DenormCategory(category.id, category.title, category.icon, FindByOwnerId(users, category.ownerId))
  }

  /**
   `categoriesList`: one record per source category, in the same order, with the
   same id, title and icon, and the owner that `FindByOwnerId` resolves.
   */
  function CategoriesList(categories: seq<Category>, users: seq<User>): (r: seq<DenormCategory>)
    ensures |r| == |categories|
    ensures forall i :: 0 <= i < |r| ==>
      && r[i].id == categories[i].id
      && r[i].title == categories[i].title
      && r[i].icon == categories[i].icon
      && (r[i].owner.None? <==> forall u :: u in users ==> u.id != categories[i].ownerId)
      && (r[i].owner.Some? ==>
            exists k :: (0 <= k < |users| && users[k] == r[i].owner.value && users[k].id == categories[i].ownerId &&
                         forall j :: 0 <= j < k ==> users[j].id != categories[i].ownerId))
  {
    seq(|categories|, i requires 0 <= i < |categories| => DenormaliseCategory(categories[i], users))
  }

  /** `findByCategoryId`: the first denormalised category with the given id, or nothing. */
  function FindByCategoryId(categoriesList: seq<DenormCategory>, id: int): (r: Option<DenormCategory>)
    ensures r.None? <==> forall i :: 0 <= i < |categoriesList| ==> categoriesList[i].id != id
    ensures r.Some? ==> exists i :: 0 <= i < |categoriesList| && categoriesList[i] == r.value && r.value.id == id &&
                                    forall j :: 0 <= j < i ==> categoriesList[j].id != id
  {
    Find(categoriesList, (c: DenormCategory) => c.id == id)
  }

  /** A product with its category looked up by `categoryId`. */
  function DenormaliseProduct(product: Product, categoriesList: seq<DenormCategory>): DenormProduct {
    DenormProduct(product.id, product.name, FindByCategoryId(categoriesList, product.categoryId))
  }

  /**
   `productsList`: one record per source product, in the same order, with the same
   id and name, and the category that `FindByCategoryId` resolves.
   */
  function ProductsList(products: seq<Product>, categoriesList: seq<DenormCategory>): (r: seq<DenormProduct>)
    ensures |r| == |products|
    ensures forall i :: 0 <= i < |r| ==>
      && r[i].id == products[i].id
      && r[i].name == products[i].name
      && (r[i].category.None? <==> forall c :: c in categoriesList ==> c.id != products[i].categoryId)
      && (r[i].category.Some? ==>
            exists k :: (0 <= k < |categoriesList| && categoriesList[k] == r[i].category.value &&
                         categoriesList[k].id == products[i].categoryId &&
                         forall j :: 0 <= j < k ==> categoriesList[j].id != products[i].categoryId))
  {
    seq(|products|, i requires 0 <= i < |products| => DenormaliseProduct(products[i], categoriesList))
  }

  /**
   Through both joins, a product's category is absent exactly when no source
   category has its `categoryId`; otherwise it is the first such source category,
   carrying the owner `FindByOwnerId` resolves for that category's `ownerId`.
   */
  lemma ProductOwnerResolved(users: seq<User>, categories: seq<Category>, products: seq<Product>, i: int)
    requires 0 <= i < |products|
    ensures var p := ProductsList(products, CategoriesList(categories, users))[i];
      && (p.category.None? <==> forall k :: 0 <= k < |categories| ==> categories[k].id != products[i].categoryId)
      && (p.category.Some? ==>
            exists k :: 0 <= k < |categories| && categories[k].id == products[i].categoryId &&
              (forall j :: 0 <= j < k ==> categories[j].id != products[i].categoryId) &&
              p.category.value == DenormaliseCategory(categories[k], users) &&
              p.category.value.owner == FindByOwnerId(users, categories[k].ownerId))
  {
    var cl := CategoriesList(categories, users);
    var p := ProductsList(products, cl)[i];
    var id := products[i].categoryId;
    assert forall k :: 0 <= k < |categories| ==> cl[k] == DenormaliseCategory(categories[k], users);
    if p.category.Some? {
      var k :| 0 <= k < |cl| && cl[k] == p.category.value && cl[k].id == id &&
               forall j :: 0 <= j < k ==> cl[j].id != id;
      assert forall j :: 0 <= j < k ==> categories[j].id == cl[j].id;
    } else {
      forall k | 0 <= k < |categories| ensures categories[k].id != id {
        assert cl[k] in cl;
      }
    }
  }

  /** When category ids are unique, the resolved category is the one with that id. */
  lemma UniqueIdsResolveExactly(categoriesList: seq<DenormCategory>, id: int, k: int)
    requires forall i, j :: 0 <= i < j < |categoriesList| ==> categoriesList[i].id != categoriesList[j].id
    requires 0 <= k < |categoriesList| && categoriesList[k].id == id
    ensures FindByCategoryId(categoriesList, id) == Some(categoriesList[k])
  {
    var r := FindByCategoryId(categoriesList, id);
    var i :| 0 <= i < |categoriesList| && categoriesList[i] == r.value && r.value.id == id &&
             forall j :: 0 <= j < i ==> categoriesList[j].id != id;
    assert i == k;
  }
}
