/** The application store: the catalog, the enquiry list and the admin flag,
    with every operation it exposes to the pages. Operations are modelled as
    synchronous functions from one store value to the next; timestamps and
    uploaded-file handles are parameters. */
module Store {
  import opened Types
  import opened Wrappers
  import Constants
  import Cart
  import Catalog
  import Seqs

  datatype Store = Store(products: seq<Product>, cart: Cart.Cart, isAdmin: bool)

  /** Seed catalog, empty enquiry list, not an administrator. */
  const Initial: Store := Store(Constants.InitialProducts, [], false)

  /** Unique catalog ids, and the enquiry-list invariant. */
  predicate Valid(s: Store) {
    Catalog.UniqueIds(s.products) && Cart.Valid(s.cart)
  }

  /** A JavaScript argument: a string, or missing (`undefined`). */
  datatype Arg = Undefined | Str(value: string)

  const AdminEmail: string := "admin@rmagrichem.com"
  const AdminPassword: string := "admin"
  const InvalidCredentials: string := "Invalid credentials. Try admin@rmagrichem.com / admin"

  /** What `loginAdmin` resolves to: the next store and `{ error }`. */
  datatype LoginReply = LoginReply(store: Store, error: Option<string>)

  // ---- Enquiry list: the catalog and the admin flag are never touched ----

  function AddToCart(s: Store, p: Product): (r: Store)
    ensures r.products == s.products && r.isAdmin == s.isAdmin
    ensures r.cart == Cart.AddToCart(s.cart, p)
  {
    s.(cart := Cart.AddToCart(s.cart, p))
  }

  function RemoveFromCart(s: Store, id: string): (r: Store)
    ensures r.products == s.products && r.isAdmin == s.isAdmin
    ensures r.cart == Cart.RemoveFromCart(s.cart, id)
  {
    s.(cart := Cart.RemoveFromCart(s.cart, id))
  }

  function UpdateQuantity(s: Store, id: string, quantity: int): (r: Store)
    ensures r.products == s.products && r.isAdmin == s.isAdmin
    ensures r.cart == Cart.UpdateQuantity(s.cart, id, quantity)
  {
    s.(cart := Cart.UpdateQuantity(s.cart, id, quantity))
  }

  function ClearCart(s: Store): (r: Store)
    ensures r.products == s.products && r.isAdmin == s.isAdmin
    ensures |r.cart| == 0
  {
    s.(cart := Cart.ClearCart())
  }

  // ---- Mock authentication ----

  /** `loginAdmin(email, password)`: succeeds, and raises the flag, exactly
      for the one hard-coded account; a failure reports the fixed message and
      changes nothing. */
  function LoginAdmin(s: Store, email: Arg, password: Arg): (r: LoginReply)
    ensures r.error.None? <==> email == Str(AdminEmail) && password == Str(AdminPassword)
    ensures r.error.None? ==> r.store == s.(isAdmin := true)
    ensures r.error.Some? ==> r.error.value == InvalidCredentials && r.store == s
  {
    if email == Str(AdminEmail) && password == Str(AdminPassword) then
      LoginReply(s.(isAdmin := true), None)
    else
      LoginReply(s, Some(InvalidCredentials))
  }

  /** `logoutAdmin`: always lowers the flag. */
  function LogoutAdmin(s: Store): (r: Store)
    ensures !r.isAdmin
    ensures r.products == s.products && r.cart == s.cart
  {
    s.(isAdmin := false)
  }

  // ---- Catalog: the enquiry list keeps its snapshots ----

  function AddProduct(s: Store, draft: Product, freshId: string, upload: Option<string>): (r: Store)
    ensures r.cart == s.cart && r.isAdmin == s.isAdmin
    ensures r.products == Catalog.AddProduct(s.products, draft, freshId, upload)
  {
    s.(products := Catalog.AddProduct(s.products, draft, freshId, upload))
  }

  function UpdateProduct(s: Store, p: Product, upload: Option<string>): (r: Store)
    ensures r.cart == s.cart && r.isAdmin == s.isAdmin
    ensures r.products == Catalog.UpdateProduct(s.products, p, upload)
  {
    s.(products := Catalog.UpdateProduct(s.products, p, upload))
  }

  /** `deleteProduct(id, imageUrl)`; the image argument is unused. */
  function DeleteProduct(s: Store, id: string): (r: Store)
    ensures r.cart == s.cart && r.isAdmin == s.isAdmin
    ensures r.products == Catalog.DeleteProduct(s.products, id)
  {
    s.(products := Catalog.DeleteProduct(s.products, id))
  }

  // ---- Every operation, as one step ----

  datatype Action =
    | AddItem(product: Product)
    | RemoveItem(id: string)
    | SetQuantity(id: string, quantity: int)
    | Clear
    | Login(email: Arg, password: Arg)
    | Logout
    | Create(draft: Product, freshId: string, upload: Option<string>)
    | Update(product: Product, upload: Option<string>)
    | Delete(id: string)

  function Apply(s: Store, a: Action): Store {
    match a
    case AddItem(p) => AddToCart(s, p)
    case RemoveItem(id) => RemoveFromCart(s, id)
    case SetQuantity(id, q) => UpdateQuantity(s, id, q)
    case Clear => ClearCart(s)
    case Login(e, pw) => LoginAdmin(s, e, pw).store
    case Logout => LogoutAdmin(s)
    case Create(d, id, up) => AddProduct(s, d, id, up)
    case Update(p, up) => UpdateProduct(s, p, up)
    case Delete(id) => DeleteProduct(s, id)
  }

  /** The one assumption the model makes about time-based ids: a new
      product's id is not already in the catalog. */
  predicate FreshFor(s: Store, a: Action) {
    a.Create? ==> a.freshId !in Catalog.Ids(s.products)
  }

  function Run(s: Store, actions: seq<Action>): Store
    decreases |actions|
  {
    if |actions| == 0 then s else Run(Apply(s, actions[0]), actions[1..])
  }

  /** Every action whose ids are fresh produces a valid store. */
  predicate FreshRun(s: Store, actions: seq<Action>)
    decreases |actions|
  {
    |actions| == 0 || (FreshFor(s, actions[0]) && FreshRun(Apply(s, actions[0]), actions[1..]))
  }

  lemma InitialValid()
    ensures Valid(Initial)
  {
    Constants.SeedIdsDistinct();
  }

  /** One step keeps the store invariant. */
  lemma ApplyValid(s: Store, a: Action)
    requires Valid(s) && FreshFor(s, a)
    ensures Valid(Apply(s, a))
  {
    match a
    case AddItem(p) => Cart.AddToCartValid(s.cart, p);
    case RemoveItem(id) => Cart.RemoveFromCartValid(s.cart, id);
    case SetQuantity(id, q) => Cart.UpdateQuantityValid(s.cart, id, q);
    case Clear =>
    case Login(e, pw) =>
    case Logout =>
    case Create(d, id, up) => Catalog.AddProductUnique(s.products, d, id, up);
    case Update(p, up) => Catalog.UpdateProductUnique(s.products, p, up);
    case Delete(id) => Catalog.DeleteProductUnique(s.products, id);
  }

  /** Any run from a valid store with fresh ids ends in a valid store; in
      particular every run from the initial store does. */
  lemma {:induction false} RunValid(s: Store, actions: seq<Action>)
    requires Valid(s) && FreshRun(s, actions)
    ensures Valid(Run(s, actions))
    decreases |actions|
  {
    if |actions| > 0 {
      ApplyValid(s, actions[0]);
      RunValid(Apply(s, actions[0]), actions[1..]);
    }
  }

  /** A catalog change never alters the enquiry list: after a product is
      deleted, an item added earlier still holds its snapshot. */
  lemma DeleteKeepsSnapshot(a: Product, b: Product)
    requires a.id != b.id
    ensures var s := AddToCart(Store([a, b], [], false), a);
            var t := DeleteProduct(s, a.id);
            t.products == [b] && t.cart == [Types.CartItem(a, 1)]
  {
    var s := AddToCart(Store([a, b], [], false), a);
    assert s.cart == [Types.CartItem(a, 1)];
    var keep := (p: Product) => p.id != a.id;
    assert [a, b][1..] == [b] && [b][1..] == [];
    assert Seqs.Filter([a, b], keep) == [b];
    assert Catalog.DeleteProduct([a, b], a.id) == Seqs.Filter([a, b], keep);
  }

  /** Logging in with the wrong credentials fails and leaves the flag down;
      the right ones raise it; logging out lowers it again. */
  lemma LoginScenario()
    ensures LoginAdmin(Initial, Str("wrong"), Str("wrong")).error == Some(InvalidCredentials)
    ensures !LoginAdmin(Initial, Str("wrong"), Str("wrong")).store.isAdmin
    ensures LoginAdmin(Initial, Str(AdminEmail), Str(AdminPassword)).store.isAdmin
    ensures !LogoutAdmin(LoginAdmin(Initial, Str(AdminEmail), Str(AdminPassword)).store).isAdmin
  {
  }
}
