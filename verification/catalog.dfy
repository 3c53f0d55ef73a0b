/** The product list kept by the store: prepend on add, replace in place on
    update, filter out on delete. None of these report an error: an unknown
    id is silently ignored. */
module Catalog {
  import opened Types
  import opened Wrappers
  import Seqs

  function ProductId(p: Product): string {
    p.id
  }

  /** The product ids, in catalog order. */
  function Ids(products: seq<Product>): (r: seq<string>)
    ensures |r| == |products|
    ensures forall i :: 0 <= i < |products| ==> r[i] == products[i].id
  {
    seq(|products|, i requires 0 <= i < |products| => products[i].id)
  }

  /** The catalog invariant: ids are unique. */
  predicate UniqueIds(products: seq<Product>) {
    Seqs.DistinctKeys(products, ProductId)
  }

  /** The image a saved record carries: a newly uploaded file's fresh local
      handle when there is one, else the image the caller supplied. */
  function SavedImage(supplied: string, upload: Option<string>): (r: string)
    ensures upload.Some? ==> r == upload.value
    ensures upload.None? ==> r == supplied
  {
    if upload.Some? then upload.value else supplied
  }

  /** `addProduct`: the supplied fields under the new id, put first. */
  function AddProduct(products: seq<Product>, draft: Product, freshId: string, upload: Option<string>): (r: seq<Product>)
    ensures |r| == |products| + 1
    ensures r[0] == draft.(id := freshId, image := SavedImage(draft.image, upload))
    ensures r[1..] == products
  {
    [draft.(id := freshId, image := SavedImage(draft.image, upload))] + products
  }

  /** `updateProduct`: every record with the product's id is replaced, in
      place, by the supplied record. */
  function UpdateProduct(products: seq<Product>, p: Product, upload: Option<string>): (r: seq<Product>)
    ensures |r| == |products| && Ids(r) == Ids(products)
    ensures forall i :: 0 <= i < |products| && products[i].id == p.id ==> r[i] == p.(image := SavedImage(p.image, upload))
    ensures forall i :: 0 <= i < |products| && products[i].id != p.id ==> r[i] == products[i]
    ensures p.id !in Ids(products) ==> r == products
  {
    seq(|products|, i requires 0 <= i < |products| =>
      if products[i].id == p.id then p.(image := SavedImage(p.image, upload)) else products[i])
  }

  /** `deleteProduct`: every record with the id is dropped; the rest keep
      their order. */
  function DeleteProduct(products: seq<Product>, id: string): (r: seq<Product>)
    ensures Seqs.IsSubsequence(r, products)
    ensures id !in Ids(r)
    ensures forall i :: 0 <= i < |products| && products[i].id != id ==> products[i] in r
    ensures forall i :: 0 <= i < |r| ==> r[i] in products
    ensures id !in Ids(products) ==> r == products
  {
    var keep := (p: Product) => p.id != id;
    var r := Seqs.Filter(products, keep);
    Seqs.FilterIsSubsequence(products, keep);
    if id !in Ids(products) then
      Seqs.FilterAll(products, keep);
      r
    else r
  }

  /** A fresh id keeps ids unique. */
  lemma AddProductUnique(products: seq<Product>, draft: Product, freshId: string, upload: Option<string>)
    requires UniqueIds(products)
    requires freshId !in Ids(products)
    ensures UniqueIds(AddProduct(products, draft, freshId, upload))
  {
    var r := AddProduct(products, draft, freshId, upload);
    forall i, j | 0 <= i < j < |r|
      ensures ProductId(r[i]) != ProductId(r[j])
    {
      assert r[j] == products[j - 1];
      if i > 0 {
        assert r[i] == products[i - 1];
        assert ProductId(products[i - 1]) != ProductId(products[j - 1]);
      } else {
        assert Ids(products)[j - 1] == r[j].id;
      }
    }
  }

  lemma UpdateProductUnique(products: seq<Product>, p: Product, upload: Option<string>)
    requires UniqueIds(products)
    ensures UniqueIds(UpdateProduct(products, p, upload))
  {
    var r := UpdateProduct(products, p, upload);
    forall i, j | 0 <= i < j < |r|
      ensures ProductId(r[i]) != ProductId(r[j])
    {
      assert ProductId(products[i]) != ProductId(products[j]);
      assert Ids(r)[i] == Ids(products)[i] && Ids(r)[j] == Ids(products)[j];
    }
  }

  lemma DeleteProductUnique(products: seq<Product>, id: string)
    requires UniqueIds(products)
    ensures UniqueIds(DeleteProduct(products, id))
  {
    var keep := (p: Product) => p.id != id;
    Seqs.FilterKeepsDistinct(products, keep, ProductId);
    assert DeleteProduct(products, id) == Seqs.Filter(products, keep);
  }

  /** After updating an existing id in a catalog with unique ids, exactly one
      record carries that id and it is the supplied record. */
  lemma UpdateExactlyOne(products: seq<Product>, p: Product, upload: Option<string>)
    requires UniqueIds(products)
    requires p.id in Ids(products)
    ensures p.(image := SavedImage(p.image, upload)) in UpdateProduct(products, p, upload)
    ensures forall i :: 0 <= i < |products| && UpdateProduct(products, p, upload)[i].id == p.id ==>
      UpdateProduct(products, p, upload)[i] == p.(image := SavedImage(p.image, upload))
    ensures UniqueIds(UpdateProduct(products, p, upload))
  {
    var k :| 0 <= k < |products| && Ids(products)[k] == p.id;
    UpdateProductUnique(products, p, upload);
  }

  /** Updating with the very record the catalog holds changes nothing. */
  lemma UpdateWithStored(products: seq<Product>, k: int)
    requires UniqueIds(products)
    requires 0 <= k < |products|
    ensures UpdateProduct(products, products[k], None) == products
  {
    var p := products[k];
    var r := UpdateProduct(products, p, None);
    forall i | 0 <= i < |products| && products[i].id == p.id
      ensures i == k
    {
      assert ProductId(products[i]) == ProductId(products[k]);
    }
    assert forall i :: 0 <= i < |products| ==> r[i] == products[i];
  }

  /** Deleting twice is deleting once: the second delete finds nothing. */
  lemma DeleteIdempotent(products: seq<Product>, id: string)
    ensures DeleteProduct(DeleteProduct(products, id), id) == DeleteProduct(products, id)
  {
  }
}
