/**
 The three source tables of the catalogue (users, categories, products) and the
 denormalised records the join builds from them.
 */
module Entities {
  import opened Wrappers

  datatype Sex = Male | Female

  /** A user record as supplied by the data source. */
  datatype User = User(id: int, name: string, sex: Sex)

  /** A category record as supplied by the data source; `ownerId` refers to a user. */
  datatype Category = Category(id: int, title: string, icon: string, ownerId: int)

  /** A product record as supplied by the data source; `categoryId` refers to a category. */
  datatype Product = Product(id: int, name: string, categoryId: int)

  /** A category with its owner resolved; the owner is absent when no user has the id. */
  datatype DenormCategory = DenormCategory(id: int, title: string, icon: string, owner: Option<User>)

  /** A product with its category resolved; the category is absent when none has the id. */
  datatype DenormProduct = DenormProduct(id: int, name: string, category: Option<DenormCategory>)
}
