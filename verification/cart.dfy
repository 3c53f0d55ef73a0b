/** The enquiry list kept by the store: add-or-increment, remove, set a
    quantity behind a guard, clear, and the total the header badge shows. */
module Cart {
  import opened Types
  import Seqs

  type Cart = seq<CartItem>

  function ItemId(item: CartItem): string {
    item.id()
  }

  /** The item ids, in list order. */
  function Ids(cart: Cart): (r: seq<string>)
    ensures |r| == |cart|
    ensures forall i :: 0 <= i < |cart| ==> r[i] == cart[i].id()
  {
    seq(|cart|, i requires 0 <= i < |cart| => cart[i].id())
  }

  predicate DistinctIds(cart: Cart) {
    Seqs.DistinctKeys(cart, ItemId)
  }

  /** The enquiry-list invariant: at most one item per product id, and
      every quantity at least 1. */
  predicate Valid(cart: Cart) {
    && DistinctIds(cart)
    && forall i :: 0 <= i < |cart| ==> cart[i].quantity >= 1
  }

  /** `addToCart`: a product already listed has its quantity raised by one;
      otherwise a snapshot of it is appended with quantity 1. */
  function AddToCart(cart: Cart, p: Product): (r: Cart)
    ensures Ids(r) == if p.id in Ids(cart) then Ids(cart) else Ids(cart) + [p.id]
    ensures forall i :: 0 <= i < |cart| ==> r[i].product == cart[i].product
    ensures forall i :: 0 <= i < |cart| && cart[i].id() != p.id ==> r[i] == cart[i]
    ensures forall i :: 0 <= i < |cart| && cart[i].id() == p.id ==> r[i].quantity == cart[i].quantity + 1
    ensures p.id !in Ids(cart) ==> r[|cart|] == CartItem(p, 1)
  {
    if p.id in Ids(cart) then
      seq(|cart|, i requires 0 <= i < |cart| =>
        if cart[i].id() == p.id then cart[i].(quantity := cart[i].quantity + 1) else cart[i])
    else cart + [CartItem(p, 1)]
  }

  /** `removeFromCart`: drops every item with the id and keeps the rest in order. */
  function RemoveFromCart(cart: Cart, id: string): (r: Cart)
    ensures Seqs.IsSubsequence(r, cart)
    ensures id !in Ids(r)
    ensures forall i :: 0 <= i < |cart| && cart[i].id() != id ==> cart[i] in r
    ensures forall i :: 0 <= i < |r| ==> r[i] in cart
    ensures id !in Ids(cart) ==> r == cart
  {
    var keep := (item: CartItem) => item.id() != id;
    var r := Seqs.Filter(cart, keep);
    Seqs.FilterIsSubsequence(cart, keep);
    if id !in Ids(cart) then
      Seqs.FilterAll(cart, keep);
      r
    else r
  }

  /** `updateQuantity`: a quantity below 1 is ignored; otherwise every item
      with the id takes the new quantity. An unknown id changes nothing. */
  function UpdateQuantity(cart: Cart, id: string, quantity: int): (r: Cart)
    ensures quantity < 1 ==> r == cart
    ensures Ids(r) == Ids(cart)
    ensures forall i :: 0 <= i < |cart| ==> r[i].product == cart[i].product
    ensures forall i :: 0 <= i < |cart| && cart[i].id() != id ==> r[i] == cart[i]
    ensures quantity >= 1 ==> forall i :: 0 <= i < |cart| && cart[i].id() == id ==> r[i].quantity == quantity
    ensures id !in Ids(cart) ==> r == cart
  {
    if quantity < 1 then cart
    else
      seq(|cart|, i requires 0 <= i < |cart| =>
        if cart[i].id() == id then cart[i].(quantity := quantity) else cart[i])
  }

  /** `clearCart`. */
  function ClearCart(): (r: Cart)
    ensures |r| == 0
  {
    []
  }

  /** Sum of all quantities: `cart.reduce((acc, item) => acc + item.quantity, 0)`.
      Zero for an empty list; when every quantity is at least 1, at least the
      number of items and at least each single quantity. */
  function TotalQuantity(cart: Cart): (r: int)
    ensures |cart| == 0 ==> r == 0
    ensures (forall i :: 0 <= i < |cart| ==> cart[i].quantity >= 1) ==>
      r >= |cart| && forall i :: 0 <= i < |cart| ==> r >= cart[i].quantity
    decreases |cart|
  {
    if |cart| == 0 then 0 else TotalQuantity(cart[..|cart| - 1]) + cart[|cart| - 1].quantity
  }

  // ---- The invariant holds initially and every operation keeps it ----

  lemma EmptyValid()
    ensures Valid([])
  {
  }

  lemma AddToCartValid(cart: Cart, p: Product)
    requires Valid(cart)
    ensures Valid(AddToCart(cart, p))
  {
    var r := AddToCart(cart, p);
    assert Ids(r) == Ids(cart) || Ids(r) == Ids(cart) + [p.id];
    forall i, j | 0 <= i < j < |r|
      ensures ItemId(r[i]) != ItemId(r[j])
    {
      assert Ids(r)[i] == r[i].id() && Ids(r)[j] == r[j].id();
      if j < |cart| {
        assert ItemId(cart[i]) != ItemId(cart[j]);
      }
    }
  }

  lemma RemoveFromCartValid(cart: Cart, id: string)
    requires Valid(cart)
    ensures Valid(RemoveFromCart(cart, id))
  {
    var keep := (item: CartItem) => item.id() != id;
    Seqs.FilterKeepsDistinct(cart, keep, ItemId);
    assert RemoveFromCart(cart, id) == Seqs.Filter(cart, keep);
  }

  lemma UpdateQuantityValid(cart: Cart, id: string, quantity: int)
    requires Valid(cart)
    ensures Valid(UpdateQuantity(cart, id, quantity))
  {
    var r := UpdateQuantity(cart, id, quantity);
    forall i, j | 0 <= i < j < |r|
      ensures ItemId(r[i]) != ItemId(r[j])
    {
      assert ItemId(cart[i]) != ItemId(cart[j]);
      assert Ids(r)[i] == Ids(cart)[i] && Ids(r)[j] == Ids(cart)[j];
    }
  }

  lemma ClearCartValid()
    ensures Valid(ClearCart())
  {
  }

  // ---- The total ----

  /** Two lists with the same quantities position by position have the same total. */
  lemma {:induction false} TotalSameQuantities(a: Cart, b: Cart)
    requires |a| == |b|
    requires forall i :: 0 <= i < |a| ==> a[i].quantity == b[i].quantity
    ensures TotalQuantity(a) == TotalQuantity(b)
    decreases |a|
  {
    if |a| > 0 {
      TotalSameQuantities(a[..|a| - 1], b[..|b| - 1]);
    }
  }

  /** Raising one position's quantity by `d` raises the total by `d`. */
  lemma {:induction false} TotalBump(a: Cart, b: Cart, k: int, d: int)
    requires |a| == |b| && 0 <= k < |a|
    requires forall i :: 0 <= i < |a| && i != k ==> a[i].quantity == b[i].quantity
    requires b[k].quantity == a[k].quantity + d
    ensures TotalQuantity(b) == TotalQuantity(a) + d
    decreases |a|
  {
    var n := |a| - 1;
    if k == n {
      TotalSameQuantities(a[..n], b[..n]);
    } else {
      TotalBump(a[..n], b[..n], k, d);
    }
  }

  /** Appending an item adds its quantity. */
  lemma TotalAppend(cart: Cart, item: CartItem)
    ensures TotalQuantity(cart + [item]) == TotalQuantity(cart) + item.quantity
  {
    assert (cart + [item])[..|cart|] == cart;
  }

  /** Each `addToCart` raises the total by exactly one. */
  lemma AddToCartTotal(cart: Cart, p: Product)
    requires Valid(cart)
    ensures TotalQuantity(AddToCart(cart, p)) == TotalQuantity(cart) + 1
  {
    var r := AddToCart(cart, p);
    if p.id in Ids(cart) {
      var k :| 0 <= k < |cart| && Ids(cart)[k] == p.id;
      forall i | 0 <= i < |cart| && i != k
        ensures cart[i].quantity == r[i].quantity
      {
        if i < k {
          assert ItemId(cart[i]) != ItemId(cart[k]);
        } else {
          assert ItemId(cart[k]) != ItemId(cart[i]);
        }
      }
      TotalBump(cart, r, k, 1);
    } else {
      TotalAppend(cart, CartItem(p, 1));
    }
  }

  /** Under the invariant the total is at least the number of items, and it
      is zero exactly when the list is empty. */
  lemma {:induction false} TotalAtLeastLength(cart: Cart)
    requires forall i :: 0 <= i < |cart| ==> cart[i].quantity >= 1
    ensures TotalQuantity(cart) >= |cart|
    ensures TotalQuantity(cart) == 0 <==> |cart| == 0
    decreases |cart|
  {
    if |cart| > 0 {
      TotalAtLeastLength(cart[..|cart| - 1]);
    }
  }

  /** Adding the same product twice to an empty list and then setting its
      quantity to 5 leaves one item of quantity 5. */
  lemma AddTwiceThenSetFive(p: Product)
    ensures UpdateQuantity(AddToCart(AddToCart([], p), p), p.id, 5) == [CartItem(p, 5)]
    ensures TotalQuantity([CartItem(p, 5)]) == 5
  {
    var once := AddToCart([], p);
    assert once == [CartItem(p, 1)];
    assert p.id in Ids(once);
    assert once[0].id() == p.id;
    var twice := AddToCart(once, p);
    assert |twice| == 1 && twice[0] == CartItem(p, 2);
    assert twice == [CartItem(p, 2)];
    var t := UpdateQuantity(twice, p.id, 5);
    assert |t| == 1 && t[0] == CartItem(p, 5);
    assert [CartItem(p, 5)][..0] == [];
  }
}
