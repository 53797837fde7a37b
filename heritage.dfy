/** The catalog record, reduced to the fields the store and the visited page read. */
module Heritage {

  /** The closed set of place categories. */
  datatype Category = Temple | Palace | Fort | Monument | Site | Museum

  /** The string a category is stored as; `selectedCategory` is compared with it. */
  function CategoryName(c: Category): string
  {
    match c
    case Temple => "temple"
    case Palace => "palace"
    case Fort => "fort"
    case Monument => "monument"
    case Site => "site"
    case Museum => "museum"
  }

  /** The category filter's "no restriction" value. */
  const AllCategories: string := "all"

  /** Category names identify their category, and none of them is "all", so a
      category filter value is never ambiguous. */
  lemma CategoryNamesDistinct(c: Category, d: Category)
    ensures CategoryName(c) == CategoryName(d) <==> c == d
    ensures CategoryName(c) != AllCategories
  {
  }

  datatype Location = Location(city: string, province: string)

  /** A heritage place; `isVisited` is the only field that ever changes. */
  datatype Place = Place(
    id: string,
    name: string,
    description: string,
    location: Location,
    category: Category,
    isVisited: bool)
}
