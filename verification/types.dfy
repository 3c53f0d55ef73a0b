/** The records of the storefront: a catalog `Product`, its closed set of
    categories, and the `CartItem` an enquiry list holds. */
module Types {
  import opened Wrappers

  /** The product categories, in declaration order. */
  datatype Category = Fertilizer | Pesticide | Herbicide | Fungicide | GrowthPromoter | Seeds

  /** The string value each enum member carries; this is what the pages
      display and compare. */
  function CategoryName(c: Category): string {
    match c
    case Fertilizer => "Fertilizer"
    case Pesticide => "Pesticide"
    case Herbicide => "Herbicide"
    case Fungicide => "Fungicide"
    case GrowthPromoter => "Growth Promoter"
    case Seeds => "Seeds"
  }

  /** `Object.values(ProductCategory)`: every member once, in declaration order. */
  const AllCategories: seq<Category> := [Fertilizer, Pesticide, Herbicide, Fungicide, GrowthPromoter, Seeds]

  /** The member whose string value is `name`, if any: the inverse of
      `CategoryName`, through which the string values are shown distinct. */
  function ParseCategory(name: string): (r: Option<Category>)
    ensures r.Some? ==> CategoryName(r.value) == name
  {
    if name == "Fertilizer" then Some(Fertilizer)
    else if name == "Pesticide" then Some(Pesticide)
    else if name == "Herbicide" then Some(Herbicide)
    else if name == "Fungicide" then Some(Fungicide)
    else if name == "Growth Promoter" then Some(GrowthPromoter)
    else if name == "Seeds" then Some(Seeds)
    else None
  }

  /** Reading back a category's string value recovers the category. */
  lemma ParseCategoryName(c: Category)
    ensures ParseCategory(CategoryName(c)) == Some(c)
  {
  }

  /** The six string values are pairwise distinct. */
  lemma CategoryNameInjective(a: Category, b: Category)
    requires CategoryName(a) == CategoryName(b)
    ensures a == b
  {
    ParseCategoryName(a);
    ParseCategoryName(b);
  }

  /** The enumeration lists each of the six members exactly once. */
  lemma AllCategoriesComplete(c: Category)
    ensures |AllCategories| == 6
    ensures c in AllCategories
    ensures forall i, j :: 0 <= i < j < |AllCategories| ==> AllCategories[i] != AllCategories[j]
  {
  }

  /** A catalog entry. `crops` and `benefits` are ordered and may repeat;
      `price` is carried as an integer and only displayed; `image` is an
      opaque reference (a URL or a transient local handle). */
  datatype Product = Product(
    id: string,
    title: string,
    category: Category,
    description: string,
    dosage: string,
    crops: seq<string>,
    benefits: seq<string>,
    packSize: string,
    price: int,
    isFeatured: bool,
    image: string)

  /** A product snapshot in the enquiry list with the quantity asked for.
      `id` is the product's, the only key the store looks items up by. */
  datatype CartItem = CartItem(product: Product, quantity: int) {
    function id(): string {
      product.id
    }
  }
}
