/** The administration page: the login form shown while the admin flag is
    down, and the product dashboard (table, add/edit dialog, delete, logout)
    shown while it is up. */
module AdminPage {
  import opened Types
  import opened Wrappers
  import Text
  import Constants
  import Catalog
  import Store

  // ---- Comma-separated list fields ----

  /** How the edit dialog shows a list: the elements joined by ", ". The
      field starts with the first element; when no element holds a comma or
      surrounding spaces, its comma-separated pieces are the first element
      and then every other element behind one space. */
  function FormatList(xs: seq<string>): (r: string)
    ensures |xs| >= 1 ==> xs[0] <= r
    ensures Constants.EditableList(xs) ==> Text.Split(r, ',') == [xs[0]] + Text.Prefixed(xs[1..], " ")
  {
    SplitCommaSpace(xs);
    Text.Join(xs, ", ")
  }

  lemma SplitCommaSpace(xs: seq<string>)
    ensures Constants.EditableList(xs) ==>
      Text.Split(Text.Join(xs, ", "), ',') == [xs[0]] + Text.Prefixed(xs[1..], " ")
  {
    if Constants.EditableList(xs) {
      assert ", " == [','] + " ";
      Text.SplitJoin(xs, ',', " ");
    }
  }

  /** A character absent from a string is absent from its trimmed form. */
  lemma TrimKeepsOut(s: string, c: char)
    requires c !in s
    ensures c !in Text.Trim(s)
  {
    var r := Text.Trim(s);
    var i := Text.Leading(s);
    Text.TrimSlice(s);
    forall k | 0 <= k < |r|
      ensures r[k] != c
    {
      assert r[k] == s[i + k];
    }
  }

  lemma PiecesEditable(parts: seq<string>)
    requires |parts| >= 1
    requires forall i :: 0 <= i < |parts| ==> ',' !in parts[i]
    ensures Constants.EditableList(seq(|parts|, i requires 0 <= i < |parts| => Text.Trim(parts[i])))
  {
    forall i | 0 <= i < |parts|
      ensures ',' !in Text.Trim(parts[i])
    {
      TrimKeepsOut(parts[i], ',');
    }
  }

  /** How a list field is read back on save: split at every comma, each
      piece trimmed. Always at least one element (an empty field gives one
      empty element), none with a comma or surrounding spaces. */
  function ParseList(s: string): (r: seq<string>)
    ensures Constants.EditableList(r)
    ensures |r| == Text.Count(s, ',') + 1
  {
    var parts := Text.Split(s, ',');
    PiecesEditable(parts);
    seq(|parts|, i requires 0 <= i < |parts| => Text.Trim(parts[i]))
  }

  lemma ParseListAt(s: string, i: int)
    requires 0 <= i < |Text.Split(s, ',')|
    ensures |ParseList(s)| == |Text.Split(s, ',')|
    ensures ParseList(s)[i] == Text.Trim(Text.Split(s, ',')[i])
  {
  }

  /** Reading back a list the dialog formatted gives the list again,
      whenever its elements have no comma and no surrounding spaces. */
  lemma ParseFormat(xs: seq<string>)
    requires Constants.EditableList(xs)
    ensures ParseList(FormatList(xs)) == xs
  {
    ParsePieces(FormatList(xs), xs);
  }

  /** A text whose comma-separated pieces are the first element, then every
      other element behind one space, reads back as the elements. */
  lemma ParsePieces(s: string, xs: seq<string>)
    requires Constants.EditableList(xs)
    requires Text.Split(s, ',') == [xs[0]] + Text.Prefixed(xs[1..], " ")
    ensures ParseList(s) == xs
  {
    ParseListAt(s, 0);
    forall i | 0 <= i < |xs|
      ensures ParseList(s)[i] == xs[i]
    {
      PieceAt(s, xs, i);
    }
  }

  lemma PieceAt(s: string, xs: seq<string>, i: int)
    requires Constants.EditableList(xs)
    requires Text.Split(s, ',') == [xs[0]] + Text.Prefixed(xs[1..], " ")
    requires 0 <= i < |xs|
    ensures |ParseList(s)| == |xs| && ParseList(s)[i] == xs[i]
  {
    PiecesCount(s, xs);
    ParseListAt(s, i);
    if i == 0 {
      assert Text.Split(s, ',')[0] == xs[0];
      Text.TrimOfTrimmed(xs[0]);
    } else {
      PieceBehindSpace(s, xs, i);
      TrimAfterSpace(xs[i]);
    }
  }

  lemma PiecesCount(s: string, xs: seq<string>)
    requires |xs| >= 1
    requires Text.Split(s, ',') == [xs[0]] + Text.Prefixed(xs[1..], " ")
    ensures |Text.Split(s, ',')| == |xs|
  {
  }

  /** Every piece after the first is an element behind one space. */
  lemma PieceBehindSpace(s: string, xs: seq<string>, i: int)
    requires 1 <= i < |xs|
    requires Text.Split(s, ',') == [xs[0]] + Text.Prefixed(xs[1..], " ")
    ensures Text.Split(s, ',')[i] == " " + xs[i]
  {
    var rest := Text.Prefixed(xs[1..], " ");
    Text.PrefixedAt(xs[1..], " ", i - 1);
    assert ([xs[0]] + rest)[i] == rest[i - 1];
  }

  lemma TrimAfterSpace(x: string)
    requires Text.IsTrimmed(x)
    ensures Text.Trim(" " + x) == x
  {
    assert " " + x == [' '] + x;
    Text.TrimLeadingSpace(' ', x);
    Text.TrimOfTrimmed(x);
  }

  lemma ParseFormatWhenEditable(xs: seq<string>)
    ensures Constants.EditableList(xs) ==> ParseList(FormatList(xs)) == xs
  {
    if Constants.EditableList(xs) {
      ParseFormat(xs);
    }
  }

  /** Saving a list field twice without touching it changes nothing the
      second time. */
  lemma ParseListStable(s: string)
    ensures ParseList(FormatList(ParseList(s))) == ParseList(s)
  {
    ParseFormat(ParseList(s));
  }

  /** An empty list field is saved as one empty element, not as no
      elements. */
  lemma EmptyFieldOneElement()
    ensures ParseList("") == [""]
  {
    assert Text.Split("", ',') == [""];
  }

  // ---- The product dialog ----

  /** The dialog's state: every product field except the id, with the two
      lists held as text. */
  datatype ProductForm = ProductForm(
    title: string,
    category: Category,
    description: string,
    dosage: string,
    crops: string,
    benefits: string,
    packSize: string,
    price: int,
    isFeatured: bool,
    image: string)

  const NewImage: string := "https://picsum.photos/seed/new/600/600"

  /** The blank dialog for a new product. */
  const InitialForm: ProductForm := ProductForm("", Fertilizer, "", "", "", "", "", 0, false, NewImage)

  /** The dialog filled from an existing product. */
  function FormFromProduct(p: Product): (f: ProductForm)
    ensures Constants.EditableList(p.crops) ==> ParseList(f.crops) == p.crops
    ensures Constants.EditableList(p.benefits) ==> ParseList(f.benefits) == p.benefits
  {
    ParseFormatWhenEditable(p.crops);
    ParseFormatWhenEditable(p.benefits);
    ProductForm(p.title, p.category, p.description, p.dosage, FormatList(p.crops),
                FormatList(p.benefits), p.packSize, p.price, p.isFeatured, p.image)
  }

  /** The record built on save, under the given id. Whatever was typed, the
      saved lists are editable, so the dialog shows them faithfully next
      time, with one element per comma plus one. */
  function ProductFromForm(f: ProductForm, id: string): (r: Product)
    ensures r.id == id
    ensures Constants.EditableList(r.crops) && Constants.EditableList(r.benefits)
    ensures |r.crops| == Text.Count(f.crops, ',') + 1 && |r.benefits| == Text.Count(f.benefits, ',') + 1
  {
    Product(id, f.title, f.category, f.description, f.dosage, ParseList(f.crops),
            ParseList(f.benefits), f.packSize, f.price, f.isFeatured, f.image)
  }

  /** Opening the dialog on a product and saving it untouched rebuilds the
      same product, whenever its lists are editable. */
  lemma FormRoundTrip(p: Product)
    requires Constants.EditableList(p.crops) && Constants.EditableList(p.benefits)
    ensures ProductFromForm(FormFromProduct(p), p.id) == p
  {
  }

  /** A saved record reopened in the dialog and saved again is the same
      record: saving reaches a fixed point after one round. */
  lemma SaveReopenSave(f: ProductForm, id: string)
    ensures ProductFromForm(FormFromProduct(ProductFromForm(f, id)), id) == ProductFromForm(f, id)
  {
    FormRoundTrip(ProductFromForm(f, id));
  }

  /** One change in the dialog. The dialog has no input for the price or
      the image. */
  datatype FormEdit =
    | SetTitle(title: string)
    | SetCategory(category: Category)
    | SetDescription(description: string)
    | SetDosage(dosage: string)
    | SetPackSize(packSize: string)
    | SetCrops(crops: string)
    | SetBenefits(benefits: string)
    | SetFeatured(isFeatured: bool)

  function ApplyEdit(f: ProductForm, e: FormEdit): (r: ProductForm)
    ensures r.price == f.price && r.image == f.image
  {
    match e
    case SetTitle(v) => f.(title := v)
    case SetCategory(v) => f.(category := v)
    case SetDescription(v) => f.(description := v)
    case SetDosage(v) => f.(dosage := v)
    case SetPackSize(v) => f.(packSize := v)
    case SetCrops(v) => f.(crops := v)
    case SetBenefits(v) => f.(benefits := v)
    case SetFeatured(v) => f.(isFeatured := v)
  }

  function ApplyEdits(f: ProductForm, es: seq<FormEdit>): ProductForm
    decreases |es|
  {
    if |es| == 0 then f else ApplyEdits(ApplyEdit(f, es[0]), es[1..])
  }

  /** However the dialog is edited, price and image stay as opened: a new
      product always gets price 0 and the placeholder image. */
  lemma {:induction false} EditsKeepPriceAndImage(f: ProductForm, es: seq<FormEdit>)
    ensures ApplyEdits(f, es).price == f.price && ApplyEdits(f, es).image == f.image
    decreases |es|
  {
    if |es| > 0 {
      EditsKeepPriceAndImage(ApplyEdit(f, es[0]), es[1..]);
    }
  }

  // ---- The dashboard ----

  /** Whether the dialog is open, which product it edits (none: a new one),
      and its fields. */
  datatype Dashboard = Dashboard(modalOpen: bool, editing: Option<Product>, form: ProductForm)

  const ClosedDashboard: Dashboard := Dashboard(false, None, InitialForm)

  /** `openModal`: with a product, edit it; without, start a blank one. */
  function OpenModal(d: Dashboard, product: Option<Product>): (r: Dashboard)
    ensures r.modalOpen && r.editing == product
    ensures product.None? ==> r.form == InitialForm
    ensures product.Some? && Constants.EditableList(product.value.crops) && Constants.EditableList(product.value.benefits)
      ==> ProductFromForm(r.form, product.value.id) == product.value
  {
    match product
    case Some(p) =>
      Dashboard(true, Some(p), FormFromProduct(p))
    case None => Dashboard(true, None, InitialForm)
  }

  /** The store action `handleSave` issues: an update under the edited
      product's id, or an addition. The page stamps a new record with its
      own time-based id, which the store replaces with another; neither
      save passes an image file. */
  function SaveAction(d: Dashboard, pageStamp: string, storeStamp: string): (a: Store.Action)
    ensures d.editing.Some? ==> a == Store.Update(ProductFromForm(d.form, d.editing.value.id), None)
    ensures d.editing.None? ==> a.Create? && a.freshId == storeStamp && a.upload.None?
  {
    var data := ProductFromForm(d.form, if d.editing.Some? then d.editing.value.id else pageStamp);
    if d.editing.Some? then Store.Update(data, None) else Store.Create(data, storeStamp, None)
  }

  /** `handleSave`: issue the save and close the dialog. */
  function HandleSave(s: Store.Store, d: Dashboard, pageStamp: string, storeStamp: string): (r: (Store.Store, Dashboard))
    ensures !r.1.modalOpen
    ensures r.0.cart == s.cart && r.0.isAdmin == s.isAdmin
    ensures d.editing.Some? ==> Catalog.Ids(r.0.products) == Catalog.Ids(s.products)
    ensures d.editing.None? ==> r.0.products == [ProductFromForm(d.form, storeStamp)] + s.products
  {
    var r := Store.Apply(s, SaveAction(d, pageStamp, storeStamp));
    assert d.editing.None? ==> r.products == [ProductFromForm(d.form, storeStamp)] + s.products by {
      if d.editing.None? {
        assert r.products[1..] == s.products;
      }
    }
    (r, d.(modalOpen := false))
  }

  /** Opening the dialog on a listed product and saving without changes
      leaves the catalog exactly as it was. */
  lemma EditUnchangedSave(s: Store.Store, d: Dashboard, k: int, pageStamp: string, storeStamp: string)
    requires Catalog.UniqueIds(s.products)
    requires 0 <= k < |s.products|
    requires Constants.EditableList(s.products[k].crops) && Constants.EditableList(s.products[k].benefits)
    ensures HandleSave(s, OpenModal(d, Some(s.products[k])), pageStamp, storeStamp).0 == s
  {
    var p := s.products[k];
    var editor := OpenModal(d, Some(p));
    assert editor.editing == Some(p) && ProductFromForm(editor.form, p.id) == p;
    SaveEdit(s, editor, pageStamp, storeStamp);
    Catalog.UpdateWithStored(s.products, k);
  }

  lemma SaveEdit(s: Store.Store, d: Dashboard, pageStamp: string, storeStamp: string)
    requires d.editing.Some?
    ensures HandleSave(s, d, pageStamp, storeStamp).0
         == s.(products := Catalog.UpdateProduct(s.products, ProductFromForm(d.form, d.editing.value.id), None))
  {
  }

  // ---- The login form ----

  /** The login form's fields and the error line under them. */
  datatype LoginForm = LoginForm(username: string, password: string, error: string)

  const EmptyLogin: LoginForm := LoginForm("", "", "")
  const PageError: string := "Invalid credentials (try admin/admin)"

  /** The page's own credential test. */
  predicate PageAccepts(v: LoginForm) {
    v.username == "admin" && v.password == "admin"
  }

  /** `handleLogin` as written: when the page's test passes it calls the
      store's `loginAdmin` with no arguments, which the store refuses, and
      the refusal is dropped. So the flag never rises, and the right
      credentials do not even produce an error line. */
  function HandleLogin(s: Store.Store, v: LoginForm): (r: (Store.Store, LoginForm))
    ensures r.0 == s
    ensures PageAccepts(v) ==> r.1 == v
    ensures !PageAccepts(v) ==> r.1 == v.(error := PageError)
  {
    if PageAccepts(v) then (Store.LoginAdmin(s, Store.Undefined, Store.Undefined).store, v)
    else (s, v.(error := PageError))
  }

  /** `handleLogin` as evidently intended: when the page's test passes it
      hands the store the administrator's e-mail and the entered password.
      The flag then rises exactly when the page accepts the credentials. */
  function HandleLoginFixed(s: Store.Store, v: LoginForm): (r: (Store.Store, LoginForm))
    ensures r.0.isAdmin <==> s.isAdmin || PageAccepts(v)
    ensures r.0.products == s.products && r.0.cart == s.cart
    ensures !PageAccepts(v) ==> r.1 == v.(error := PageError)
  {
    if PageAccepts(v) then (Store.LoginAdmin(s, Store.Str(Store.AdminEmail), Store.Str(v.password)).store, v)
    else (s, v.(error := PageError))
  }

  // ---- The page as a whole ----

  /** What the route renders: the login form unless the flag is up. */
  datatype Screen = LoginScreen | DashboardScreen

  function Route(s: Store.Store): (r: Screen)
    ensures r == DashboardScreen <==> s.isAdmin
  {
    if s.isAdmin then DashboardScreen else LoginScreen
  }

  /** The store, the login form and the dashboard's local state. */
  datatype AdminApp = AdminApp(store: Store.Store, login: LoginForm, dash: Dashboard)

  /** A user action on the page. Rows are picked by position in the table. */
  datatype AdminEvent =
    | TypeUsername(username: string)
    | TypePassword(password: string)
    | SubmitLogin
    | LogoutClick
    | OpenNew
    | OpenEdit(row: int)
    | Edit(edit: FormEdit)
    | Save(pageStamp: string, storeStamp: string)
    | Cancel
    | DeleteRow(row: int)

  /** Which `handleLogin` the login form runs. */
  datatype LoginVersion = AsWritten | Corrected

  /** One event. The login form only reacts while it is shown; the table
      only while the dialog is closed (its overlay covers the table); the
      dialog only while it is open. Logging out unmounts nothing but shows
      a fresh login form. */
  function Step(app: AdminApp, e: AdminEvent, version: LoginVersion): (r: AdminApp)
    ensures !app.store.isAdmin && !e.SubmitLogin? ==> r.store == app.store
    ensures app.store.isAdmin ==> r.login == app.login || r.login == EmptyLogin
  {
    var s := app.store;
    var d := app.dash;
    if !s.isAdmin then
      match e
      case TypeUsername(u) => app.(login := app.login.(username := u))
      case TypePassword(pw) => app.(login := app.login.(password := pw))
      case SubmitLogin =>
        var (s', v) := if version == AsWritten then HandleLogin(s, app.login) else HandleLoginFixed(s, app.login);
        app.(store := s', login := v)
      case _ => app
    else
      match e
      case LogoutClick =>
        if d.modalOpen then app else AdminApp(Store.Apply(s, Store.Logout), EmptyLogin, d)
      case OpenNew =>
        if d.modalOpen then app else app.(dash := OpenModal(d, None))
      case OpenEdit(k) =>
        if d.modalOpen || !(0 <= k < |s.products|) then app else app.(dash := OpenModal(d, Some(s.products[k])))
      case Edit(fe) =>
        if d.modalOpen then app.(dash := d.(form := ApplyEdit(d.form, fe))) else app
      case Save(ps, ss) =>
        if d.modalOpen then
          var (s', d') := HandleSave(s, d, ps, ss);
          app.(store := s', dash := d')
        else app
      case Cancel => app.(dash := d.(modalOpen := false))
      case DeleteRow(k) =>
        if d.modalOpen || !(0 <= k < |s.products|) then app
        else app.(store := Store.Apply(s, Store.Delete(s.products[k].id)))
      case _ => app
  }

  function Run(app: AdminApp, es: seq<AdminEvent>, version: LoginVersion): AdminApp
    decreases |es|
  {
    if |es| == 0 then app else Run(Step(app, es[0], version), es[1..], version)
  }

  /** The store action an event issues, if any. */
  function StoreAction(app: AdminApp, e: AdminEvent): Option<Store.Action> {
    if app.store.isAdmin && !app.dash.modalOpen && e.DeleteRow? && 0 <= e.row < |app.store.products| then
      Some(Store.Delete(app.store.products[e.row].id))
    else if app.store.isAdmin && app.dash.modalOpen && e.Save? then
      Some(SaveAction(app.dash, e.pageStamp, e.storeStamp))
    else None
  }

  /** Time-based ids are assumed fresh. */
  predicate FreshEvent(app: AdminApp, e: AdminEvent) {
    var a := StoreAction(app, e);
    a.Some? ==> Store.FreshFor(app.store, a.value)
  }

  predicate FreshEvents(app: AdminApp, es: seq<AdminEvent>, version: LoginVersion)
    decreases |es|
  {
    |es| == 0 || (FreshEvent(app, es[0]) && FreshEvents(Step(app, es[0], version), es[1..], version))
  }

  /** Every event keeps the store invariant. */
  lemma StepValid(app: AdminApp, e: AdminEvent, version: LoginVersion)
    requires Store.Valid(app.store) && FreshEvent(app, e)
    ensures Store.Valid(Step(app, e, version).store)
  {
    var s := app.store;
    if s.isAdmin {
      match e
      case LogoutClick =>
      case Save(ps, ss) =>
        if app.dash.modalOpen {
          Store.ApplyValid(s, SaveAction(app.dash, ps, ss));
        }
      case DeleteRow(k) =>
        if !app.dash.modalOpen && 0 <= k < |s.products| {
          Store.ApplyValid(s, Store.Delete(s.products[k].id));
        }
      case _ =>
    }
  }

  lemma {:induction false} RunValid(app: AdminApp, es: seq<AdminEvent>, version: LoginVersion)
    requires Store.Valid(app.store) && FreshEvents(app, es, version)
    ensures Store.Valid(Run(app, es, version).store)
    decreases |es|
  {
    if |es| > 0 {
      StepValid(app, es[0], version);
      RunValid(Step(app, es[0], version), es[1..], version);
    }
  }

  /** As written, a visitor who is not an administrator can never change
      the store from this page, whatever they type and submit: the flag
      stays down and the catalog stays as it is. */
  lemma {:induction false} AsWrittenLockedOut(app: AdminApp, es: seq<AdminEvent>)
    requires !app.store.isAdmin
    ensures Run(app, es, AsWritten).store == app.store
    decreases |es|
  {
    if |es| > 0 {
      var next := Step(app, es[0], AsWritten);
      assert next.store == app.store;
      AsWrittenLockedOut(next, es[1..]);
    }
  }

  /** The page's start: the initial store, an empty login form, no dialog. */
  const Start: AdminApp := AdminApp(Store.Initial, EmptyLogin, ClosedDashboard)

  /** Typing admin/admin and submitting: as written the login form stays
      and shows no error; corrected, the dashboard appears. */
  lemma AdminAdminLogin()
    ensures var es := [TypeUsername("admin"), TypePassword("admin"), SubmitLogin];
      && Route(Run(Start, es, AsWritten).store) == LoginScreen
      && Run(Start, es, AsWritten).login.error == ""
      && Route(Run(Start, es, Corrected).store) == DashboardScreen
  {
    var es := [TypeUsername("admin"), TypePassword("admin"), SubmitLogin];
    var v := LoginForm("admin", "admin", "");
    assert es[1..] == [TypePassword("admin"), SubmitLogin] && es[1..][1..] == [SubmitLogin];
    assert Run(Start, es, AsWritten) == Run(AdminApp(Store.Initial, v, ClosedDashboard), [SubmitLogin], AsWritten);
    assert Run(Start, es, Corrected) == Run(AdminApp(Store.Initial, v, ClosedDashboard), [SubmitLogin], Corrected);
  }
}
