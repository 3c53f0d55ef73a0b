/** The landing page's featured strip: the first three featured products. */
module HomePage {
  import opened Types
  import opened Wrappers
  import Seqs
  import Catalog
  import Constants

  function IsFeatured(p: Product): bool {
    p.isFeatured
  }

  /** `products.filter(p => p.isFeatured).slice(0, 3)`. */
  function Featured(products: seq<Product>): (r: seq<Product>)
    ensures |r| <= 3
    ensures forall i :: 0 <= i < |r| ==> r[i].isFeatured && r[i] in products
    ensures r <= Seqs.Filter(products, IsFeatured)
    ensures |r| == if |Seqs.Filter(products, IsFeatured)| < 3 then |Seqs.Filter(products, IsFeatured)| else 3
  {
    Seqs.Take(Seqs.Filter(products, IsFeatured), 3)
  }

  /** With three or more featured products, exactly three are shown, in
      catalog order. */
  lemma ThreeShown(products: seq<Product>)
    requires |Seqs.Filter(products, IsFeatured)| >= 3
    ensures Featured(products) == Seqs.Filter(products, IsFeatured)[..3]
  {
  }

  /** A newly added featured product goes first in the strip, since the
      catalog prepends it. */
  lemma NewFeaturedFirst(products: seq<Product>, draft: Product, freshId: string, upload: Option<string>)
    requires draft.isFeatured
    ensures Featured(Catalog.AddProduct(products, draft, freshId, upload))[0]
         == draft.(id := freshId, image := Catalog.SavedImage(draft.image, upload))
  {
    var ps := Catalog.AddProduct(products, draft, freshId, upload);
    assert ps == [ps[0]] + products;
    assert ps[1..] == products;
  }

  /** The seed catalog's strip is products 1, 2 and 5. */
  lemma SeedFeatured()
    ensures Featured(Constants.InitialProducts) == [Constants.Seed1, Constants.Seed2, Constants.Seed5]
  {
    var s1, s2, s3, s4, s5 := Constants.Seed1, Constants.Seed2, Constants.Seed3, Constants.Seed4, Constants.Seed5;
    assert [s5][1..] == [];
    assert Seqs.Filter([s5], IsFeatured) == [s5];
    assert [s4, s5][1..] == [s5];
    assert Seqs.Filter([s4, s5], IsFeatured) == [s5];
    assert [s3, s4, s5][1..] == [s4, s5];
    assert Seqs.Filter([s3, s4, s5], IsFeatured) == [s5];
    assert [s2, s3, s4, s5][1..] == [s3, s4, s5];
    assert Seqs.Filter([s2, s3, s4, s5], IsFeatured) == [s2, s5];
    assert [s1, s2, s3, s4, s5][1..] == [s2, s3, s4, s5];
    assert Seqs.Filter(Constants.InitialProducts, IsFeatured) == [s1, s2, s5];
  }
}
