/** The product page reached at `/product/<id>`: it looks the id up in the
    catalog, shows the record it found or sends the visitor back to the
    product list, and offers one button that adds the shown record to the
    enquiry list. */
module ProductDetails {
  import opened Types
  import opened Wrappers
  import Catalog
  import Cart
  import Store

  /** `products.find(p => p.id === id)`: the first record with the id. */
  function Find(products: seq<Product>, id: string): (r: Option<Product>)
    ensures r.Some? <==> id in Catalog.Ids(products)
    ensures r.Some? ==> r.value in products && r.value.id == id
    decreases |products|
  {
    if |products| == 0 then None
    else if products[0].id == id then Some(products[0])
    else
      assert Catalog.Ids(products) == [products[0].id] + Catalog.Ids(products[1..]);
      Find(products[1..], id)
  }

  /** Whenever some record carries the id, the page finds the first such
      record: the one at the returned position, with none before it. */
  lemma {:induction false} FindFirst(products: seq<Product>, id: string, k: int) returns (j: int)
    requires 0 <= k < |products| && products[k].id == id
    ensures 0 <= j <= k && Find(products, id) == Some(products[j])
    ensures forall i :: 0 <= i < j ==> products[i].id != id
    decreases |products|
  {
    if products[0].id == id {
      j := 0;
    } else {
      var j' := FindFirst(products[1..], id, k - 1);
      j := j' + 1;
    }
  }

  /** In a catalog with unique ids the page finds exactly the record that
      carries the id. */
  lemma FindUnique(products: seq<Product>, k: int)
    requires Catalog.UniqueIds(products)
    requires 0 <= k < |products|
    ensures Find(products, products[k].id) == Some(products[k])
  {
    var j := FindFirst(products, products[k].id, k);
    assert Catalog.ProductId(products[j]) == Catalog.ProductId(products[k]);
  }

  /** The outcome of the page's lookup effect: the record it shows, and
      whether it sends the visitor to the product list. */
  datatype Lookup = Lookup(shown: Option<Product>, redirect: bool)

  /** The lookup effect, rerun whenever the id or the catalog changes. A
      miss redirects but leaves the previously shown record in place. */
  function LookupEffect(shown: Option<Product>, products: seq<Product>, id: string): (r: Lookup)
    ensures r.redirect <==> id !in Catalog.Ids(products)
    ensures !r.redirect ==> r.shown.Some? && r.shown.value.id == id && r.shown.value in products
    ensures r.redirect ==> r.shown == shown
  {
    var found := Find(products, id);
    if found.Some? then Lookup(found, false) else Lookup(shown, true)
  }

  /** The page on first render: nothing shown yet, so either the record or
      a redirect. */
  lemma FirstVisit(products: seq<Product>, id: string)
    ensures var l := LookupEffect(None, products, id);
      l.shown.None? <==> l.redirect
  {
  }

  /** "Add to Enquiry List": the shown record goes to the store's enquiry
      list, and the total rises by one. */
  function AddShown(s: Store.Store, p: Product): (r: Store.Store)
    ensures p.id in Cart.Ids(r.cart)
    ensures r.products == s.products && r.isAdmin == s.isAdmin
  {
    Store.AddToCart(s, p)
  }

  lemma AddShownTotal(s: Store.Store, p: Product)
    requires Cart.Valid(s.cart)
    ensures Cart.Valid(AddShown(s, p).cart)
    ensures Cart.TotalQuantity(AddShown(s, p).cart) == Cart.TotalQuantity(s.cart) + 1
  {
    Cart.AddToCartValid(s.cart, p);
    Cart.AddToCartTotal(s.cart, p);
  }
}
