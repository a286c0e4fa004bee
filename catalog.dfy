/** The records the product page receives from its three collection endpoints. */
module Catalog {
  import opened Wrappers

  /** Record identifiers; the page only ever compares them with `===`. */
  type Id = int

  /** A product category. `nameEn` and `nameChi` stand for the optional
      `name_en` and `name_chi` fields; `None` is an absent, null or undefined field. */
  datatype Category = Category(id: Id, name: string, nameEn: Option<string>, nameChi: Option<string>)

  /** A product; `categoryId` is the `category_id` foreign key into the categories. */
  datatype Product = Product(
    id: Id, categoryId: Id, name: string, nameEn: Option<string>, nameChi: Option<string>,
    weight: int, image: string)

  /** A recipe; `title` may hold paragraph markup, `body` stands for the remaining fields. */
  datatype Recipe = Recipe(
    id: Id, title: string, titleEn: Option<string>, titleChi: Option<string>, body: string)

  /** How one fetch completed: the `data` array of the response, or a thrown error. */
  datatype Fetch<T> = Success(data: T) | Failure

  /** `activeTab` after a successful categories load: the first category's id,
      absent (`None`) when the list is empty. */
  function FirstId(categories: seq<Category>): (r: Option<Id>)
    ensures r == None <==> categories == []
    ensures r != None ==> r.value == categories[0].id
  {
    if categories == [] then None else Some(categories[0].id)
  }

  /** Some category in the list has this id. */
  predicate HasCategory(categories: seq<Category>, id: Id)
  {
    exists i :: 0 <= i < |categories| && categories[i].id == id
  }

  /** No two categories share an id. */
  predicate DistinctIds(categories: seq<Category>)
  {
    forall i, j :: 0 <= i < |categories| && 0 <= j < |categories| && categories[i].id == categories[j].id ==> i == j
  }
}
