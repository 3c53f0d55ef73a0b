/** The catalog page: a free-text search over title and description and a
    category selector, combined as a filter over the store's products. */
module ProductsPage {
  import opened Types
  import Text
  import Seqs
  import Constants

  const All: string := "All"

  /** `['All', ...Object.values(ProductCategory)]`. */
  function Categories(): (r: seq<string>)
    ensures |r| == 7 && r[0] == All
    ensures forall i :: 0 <= i < 6 ==> r[i + 1] == CategoryName(AllCategories[i])
  {
    [All] + seq(6, i requires 0 <= i < 6 => CategoryName(AllCategories[i]))
  }

  /** The seven choices are pairwise distinct, so the selected button is
      unambiguous. */
  lemma CategoriesDistinct()
    ensures forall i, j :: 0 <= i < j < |Categories()| ==> Categories()[i] != Categories()[j]
  {
    var c := Categories();
    forall i, j | 0 <= i < j < 7
      ensures c[i] != c[j]
    {
      if i > 0 {
        if c[i] == c[j] {
          CategoryNameInjective(AllCategories[i - 1], AllCategories[j - 1]);
        }
      }
    }
  }

  predicate MatchesSearch(p: Product, term: string) {
    || Text.Contains(Text.Lower(p.title), Text.Lower(term))
    || Text.Contains(Text.Lower(p.description), Text.Lower(term))
  }

  predicate MatchesCategory(p: Product, selected: string) {
    selected == All || CategoryName(p.category) == selected
  }

  /** The filter's test for one product. */
  predicate Matches(p: Product, term: string, selected: string) {
    MatchesSearch(p, term) && MatchesCategory(p, selected)
  }

  /** `filteredProducts`. */
  function FilterProducts(products: seq<Product>, term: string, selected: string): (r: seq<Product>)
    ensures Seqs.IsSubsequence(r, products)
    ensures forall i :: 0 <= i < |r| ==> r[i] in products && Matches(r[i], term, selected)
    ensures forall i :: 0 <= i < |products| && Matches(products[i], term, selected) ==> products[i] in r
    ensures forall i :: 0 <= i < |products| ==>
      multiset(r)[products[i]] == if Matches(products[i], term, selected) then multiset(products)[products[i]] else 0
  {
    var keep := (p: Product) => Matches(p, term, selected);
    Seqs.FilterIsSubsequence(products, keep);
    Seqs.FilterCount(products, keep);
    Seqs.Filter(products, keep)
  }

  /** The empty term matches every product (every string includes ""), so
      "Clear all filters" — empty term, category All — shows the whole catalog. */
  lemma ClearedFiltersShowAll(products: seq<Product>)
    ensures FilterProducts(products, "", All) == products
  {
    var keep := (p: Product) => Matches(p, "", All);
    forall i | 0 <= i < |products|
      ensures keep(products[i])
    {
      assert Text.Lower("") == "";
      assert "" <= Text.Lower(products[i].title);
    }
    Seqs.FilterAll(products, keep);
  }

  /** A specific category never lets a product of another category through. */
  lemma SelectedCategoryOnly(products: seq<Product>, term: string, c: Category)
    ensures forall i :: 0 <= i < |FilterProducts(products, term, CategoryName(c))| ==>
      FilterProducts(products, term, CategoryName(c))[i].category == c
  {
    var r := FilterProducts(products, term, CategoryName(c));
    forall i | 0 <= i < |r|
      ensures r[i].category == c
    {
      assert CategoryName(c) != All;
      CategoryNameInjective(r[i].category, c);
    }
  }

  /** Typing more of the search term can only narrow the result: the longer
      term's result is a subsequence of the shorter one's. */
  lemma LongerTermNarrows(products: seq<Product>, term: string, more: string, selected: string)
    ensures Seqs.IsSubsequence(FilterProducts(products, term + more, selected),
                               FilterProducts(products, term, selected))
  {
    var strong := (p: Product) => Matches(p, term + more, selected);
    var weak := (p: Product) => Matches(p, term, selected);
    forall p | strong(p)
      ensures weak(p)
    {
      Text.LowerAppend(term, more);
      if Text.Contains(Text.Lower(p.title), Text.Lower(term + more)) {
        Text.ContainsPrefix(Text.Lower(p.title), Text.Lower(term), Text.Lower(more));
      } else {
        Text.ContainsPrefix(Text.Lower(p.description), Text.Lower(term), Text.Lower(more));
      }
    }
    Seqs.FilterMonotone(products, strong, weak);
  }

  /** The seed catalog has nothing in the Seeds category, so choosing it
      shows the empty state. */
  lemma SeedCatalogHasNoSeeds(term: string)
    ensures FilterProducts(Constants.InitialProducts, term, CategoryName(Seeds)) == []
  {
    Constants.NoSeedInSeedsCategory();
    var r := FilterProducts(Constants.InitialProducts, term, CategoryName(Seeds));
    if |r| > 0 {
      SelectedCategoryOnly(Constants.InitialProducts, term, Seeds);
      assert false;
    }
  }
}
