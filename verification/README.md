# RM Agrichem storefront, modelled in Dafny

This project models the logic of the RM Agrichem storefront, a single-page shop
for agricultural chemicals. Visitors browse a product catalog and collect
products in an *enquiry list*. They then send that list as a pre-filled message
through a messaging deep link. An administrator can add, edit and delete
catalog products.

All state lives in one in-memory store. It holds:

- the catalog;
- the enquiry list (a cart of product snapshots with quantities);
- an administrator flag.

The pages around the store add small pure computations:

- the search and category filter;
- the "featured" strip on the home page;
- the enquiry message and its link;
- the comma-separated list fields of the product editor;
- the enquiry-list badge and the navigation highlighting;
- the product lookup on the detail page;
- the contact form's status machine.

The model is functional. `Product`, `CartItem`, the `Store` record and each page's
local state are immutable datatypes. Each store operation and page handler is a
pure function from one state to the next. Lemmas state:

- the store invariant (unique catalog ids, unique enquiry-list ids, every
  quantity at least 1) and that every operation keeps it;
- order preservation;
- that catalog operations never touch the enquiry list;
- round trips: the editor's list format and parse, and the link's
  percent-encoding and decoding;
- the reachable states of the page state machines.

Modules:

| module | file | models |
|---|---|---|
| `Types` | types.dfy | the product record, the six categories, the enquiry-list item |
| `Constants` | constants.dfy | the five seed products, the company's number, e-mail and address |
| `Cart` | cart.dfy | the enquiry-list operations of the store |
| `Catalog` | catalog.dfy | the catalog operations of the store |
| `Store` | store.dfy | the whole store: initial state, every operation, administrator login |
| `ProductsPage` | products_page.dfy | the category tabs and the search/category filter |
| `HomePage` | home_page.dfy | the first three featured products |
| `CartPage` | cart_page.dfy | the enquiry message, its link, the −/+ buttons |
| `AdminPage` | admin_page.dfy | login form, product dialog, save/delete/logout |
| `Layout` | layout.dfy | badge count, link highlighting, mobile menu, chat link |
| `ProductDetails` | product_details.dfy | lookup by route id, redirect, add button |
| `Contact` | contact.dfy | the contact form and its simulated submission |
| `Text` | text.dfy | the JavaScript string operations the pages use: `split`, `join`, `trim`, `toLowerCase`, `includes`, integer rendering |
| `Uri` | uri.dfy | `encodeURIComponent` as UTF-8 percent-encoding, with a decoder that inverts it |
| `Seqs` | seqs.dfy | `filter` and `slice` on sequences, subsequences, distinct keys |
| `Wrappers` | wrappers.dfy | `Option` |

Time-based ids (`Date.now()`) and uploaded-file handles (`URL.createObjectURL`)
are parameters. A new id is assumed fresh (`Store.FreshFor`,
`AdminPage.FreshEvent`). That assumption is a hypothesis of the invariant
lemmas, not a precondition of the operations.

`updateProduct` and `deleteProduct` resolve to `{ error: null }` for any id
(services/store.tsx:90-106). The model treats an unknown id as a silent no-op
(`Catalog.UpdateProduct`, `Catalog.DeleteProduct`).

## Model

| member | source | states |
|---|---|---|
| `Types.ParseCategory` | types.ts:15-22 | a string that parses names the category it parses to |
| `Types.ParseCategoryName` | types.ts:15-22 | every category's display string reads back as that category |
| `Types.CategoryNameInjective` | types.ts:15-22 | the six display strings are pairwise distinct |
| `Types.AllCategoriesComplete` | types.ts:15-22 | the enum has exactly six members, all listed once in declaration order |
| `Constants.SeedIdsDistinct` | constants.ts:3-69 | the seed ids are "1" to "5", pairwise distinct, so catalog ids start unique |
| `Constants.SeedFeatured` | constants.ts:3-69 | exactly the seeds with ids 1, 2 and 5 are featured |
| `Constants.SeedPricesPositive` | constants.ts:3-69 | every seed price is positive |
| `Constants.NoSeedInSeedsCategory` | constants.ts:3-69 | no seed product is in the Seeds category |
| `Constants.SeedListsEditable` | constants.ts:3-69 | every seed's crops and benefits are non-empty lists of comma-free entries with no space at either end, so the editor shows them faithfully |
| `Cart.AddToCart` | services/store.tsx:30-40 | a listed id has only its quantity raised by one; otherwise a snapshot with quantity 1 is appended at the end; earlier items keep their snapshots |
| `Cart.RemoveFromCart` | services/store.tsx:42-44 | the result is an order-preserving subsequence without the id, keeping every other item; an absent id changes nothing |
| `Cart.UpdateQuantity` | services/store.tsx:46-51 | below 1 nothing changes; otherwise only items with the id take the quantity; ids and snapshots are kept; an absent id changes nothing |
| `Cart.ClearCart` | services/store.tsx:53 | the list becomes empty |
| `Cart.EmptyValid` | services/store.tsx:25 | the initial empty list satisfies the invariant |
| `Cart.AddToCartValid` | services/store.tsx:30-40 | adding keeps ids distinct and quantities at least 1 |
| `Cart.RemoveFromCartValid` | services/store.tsx:42-44 | removing keeps the invariant |
| `Cart.UpdateQuantityValid` | services/store.tsx:46-51 | the guard keeps every quantity at least 1 |
| `Cart.ClearCartValid` | services/store.tsx:53 | clearing gives a list satisfying the invariant |
| `Cart.TotalSameQuantities` | services/store.tsx:30-53 | two lists with the same quantities position by position have the same total |
| `Cart.TotalBump` | services/store.tsx:34-36 | raising one position's quantity by d raises the total by d |
| `Cart.AddToCartTotal` | services/store.tsx:30-40 | under the invariant, every add raises the summed quantity by exactly one |
| `Cart.TotalQuantity` | components/Layout.tsx:13 | the `reduce` sum of quantities: zero for an empty list; with every quantity at least 1, at least the number of items and at least each single quantity |
| `Cart.TotalAtLeastLength` | services/store.tsx:47 | with quantities at least 1, the total is at least the length and zero exactly for the empty list |
| `Cart.AddTwiceThenSetFive` | services/store.tsx:30-51 | adding one product twice then setting 5 gives one item of quantity 5 |
| `Catalog.SavedImage` | services/store.tsx:72-77 | an uploaded file's handle replaces the supplied image; without one the supplied image is kept |
| `Catalog.AddProduct` | services/store.tsx:70-88 | exactly one record, the supplied fields under the new id, is put first; the rest is the old catalog |
| `Catalog.UpdateProduct` | services/store.tsx:90-101 | length and id order are kept; records with the id become the supplied record; others are untouched; an unknown id changes nothing |
| `Catalog.DeleteProduct` | services/store.tsx:103-106 | an order-preserving subsequence without the id, keeping every other record; an absent id changes nothing |
| `Catalog.AddProductUnique` | services/store.tsx:81-85 | a fresh id keeps catalog ids unique |
| `Catalog.UpdateProductUnique` | services/store.tsx:98 | updating keeps ids unique |
| `Catalog.DeleteProductUnique` | services/store.tsx:104 | deleting keeps ids unique |
| `Catalog.UpdateExactlyOne` | services/store.tsx:98 | after updating an existing id, exactly the supplied record carries it |
| `Catalog.UpdateWithStored` | services/store.tsx:98 | updating with the record already held changes nothing |
| `Store.AddToCart` | services/store.tsx:30-40 | the enquiry-list add, leaving the catalog and the flag alone |
| `Store.RemoveFromCart` | services/store.tsx:42-44 | the enquiry-list remove, leaving the catalog and the flag alone |
| `Store.UpdateQuantity` | services/store.tsx:46-51 | the quantity change, leaving the catalog and the flag alone |
| `Store.ClearCart` | services/store.tsx:53 | the list is emptied, the catalog and the flag are kept |
| `Store.LoginAdmin` | services/store.tsx:56-63 | success exactly for the administrator's e-mail and password, raising the flag; otherwise the fixed error and an unchanged store |
| `Store.LogoutAdmin` | services/store.tsx:65-67 | the flag goes down, nothing else changes |
| `Store.AddProduct` | services/store.tsx:70-88 | the catalog add, leaving the enquiry list and the flag alone |
| `Store.UpdateProduct` | services/store.tsx:90-101 | the catalog update, leaving the enquiry list and the flag alone |
| `Store.DeleteProduct` | services/store.tsx:103-106 | the catalog delete, leaving the enquiry list (snapshots included) and the flag alone |
| `Store.InitialValid` | services/store.tsx:24-27 | the initial store satisfies the invariant |
| `Store.ApplyValid` | services/store.tsx:30-106 | every store operation keeps the invariant, given a fresh id for additions |
| `Store.RunValid` | services/store.tsx:24-106 | every sequence of operations with fresh ids keeps the invariant |
| `Store.DeleteKeepsSnapshot` | services/store.tsx:103-106 | deleting a product leaves the enquiry item added earlier as it was |
| `Store.LoginScenario` | services/store.tsx:56-67 | wrong credentials fail with the error, the right ones raise the flag, logout lowers it |
| `ProductsPage.Categories` | pages/Products.tsx:13 | "All" followed by the six category names in declaration order |
| `ProductsPage.CategoriesDistinct` | pages/Products.tsx:13 | the seven tabs are pairwise distinct |
| `ProductsPage.FilterProducts` | pages/Products.tsx:15-22 | an order-preserving subsequence holding exactly the products that match the term (title or description, lower-cased) and the category, each as many times as it occurs in the catalog |
| `ProductsPage.ClearedFiltersShowAll` | pages/Products.tsx:117 | "Clear all filters" (empty term, All) shows the whole catalog |
| `ProductsPage.SelectedCategoryOnly` | pages/Products.tsx:19 | a selected category never shows a product of another |
| `ProductsPage.LongerTermNarrows` | pages/Products.tsx:17-18 | extending the term never adds results |
| `ProductsPage.SeedCatalogHasNoSeeds` | pages/Products.tsx:19 | filtering the seed catalog by Seeds shows nothing |
| `HomePage.Featured` | pages/Home.tsx:9 | at most three products, all featured, the first min(3, featured) in catalog order |
| `HomePage.ThreeShown` | pages/Home.tsx:9 | with three or more featured, exactly the first three are shown |
| `HomePage.NewFeaturedFirst` | pages/Home.tsx:9 | a newly added featured product is shown first |
| `HomePage.SeedFeatured` | pages/Home.tsx:9 | the seed catalog shows seeds 1, 2 and 5 |
| `CartPage.Message` | pages/Cart.tsx:10-13 | the message starts with the greeting, then the first item's line when there is one, and ends with the closing request |
| `CartPage.ItemLines` | pages/Cart.tsx:12 | one line per item, in list order |
| `CartPage.Link` | pages/Cart.tsx:15-16 | the chat address with `?text=`, then only URI-safe characters |
| `CartPage.Render` | pages/Cart.tsx:19-32 | the empty state exactly for an empty list; otherwise the listing with the link |
| `CartPage.MessageLines` | pages/Cart.tsx:11-13 | split at newlines the message is the greeting, a blank, one line per item, a blank and the request, so there are as many item lines as items |
| `CartPage.LinkCarriesMessage` | pages/Cart.tsx:15 | the link's text decodes to exactly the message |
| `CartPage.LinkInjective` | pages/Cart.tsx:15-16 | two lists with the same link have the same message |
| `CartPage.DecrementAtOne` | pages/Cart.tsx:57 | "−" at quantity 1 is refused by the store's guard |
| `CartPage.ButtonsKeepValid` | pages/Cart.tsx:57-66 | "+" raises the quantity by one, "−" lowers it unless it is 1; both keep the invariant |
| `AdminPage.ParseList` | pages/Admin.tsx:84-85 | one element per comma plus one, each comma-free with no surrounding spaces (an empty field is one empty element) |
| `AdminPage.ParseFormat` | pages/Admin.tsx:69-70 | format then parse gives the list back when it is non-empty and no element has a comma or surrounding space |
| `AdminPage.ParseListStable` | pages/Admin.tsx:84-85 | saving an untouched list field a second time changes nothing |
| `AdminPage.EmptyFieldOneElement` | pages/Admin.tsx:84-85 | an empty field parses to one empty element, not to none |
| `AdminPage.FormatList` | pages/Admin.tsx:69-70 | `join(', ')`: the field starts with the first element; for an editable list its comma-separated pieces are the first element, then each other element behind one space |
| `AdminPage.ProductFromForm` | pages/Admin.tsx:81-86 | the saved record carries the given id, and its lists are editable with one element per comma plus one, whatever was typed |
| `AdminPage.SaveReopenSave` | pages/Admin.tsx:64-86 | a saved record reopened in the dialog and saved again is unchanged |
| `AdminPage.FormFromProduct` | pages/Admin.tsx:64-71 | the dialog's list texts read back as the product's lists when those are editable |
| `AdminPage.FormRoundTrip` | pages/Admin.tsx:64-94 | opening a product and saving it untouched rebuilds the same record |
| `AdminPage.ApplyEdit` | pages/Admin.tsx:164-209 | no dialog input changes the price or the image |
| `AdminPage.EditsKeepPriceAndImage` | pages/Admin.tsx:49-60 | however the dialog is edited, price and image stay as opened, so a new product gets price 0 and the placeholder image |
| `AdminPage.OpenModal` | pages/Admin.tsx:64-77 | the dialog opens on the product given (blank form for none) and its fields rebuild that product |
| `AdminPage.SaveAction` | pages/Admin.tsx:79-92 | an edit saves under the edited product's id through the update; a new product goes through the add with the store's fresh id and no file |
| `AdminPage.HandleSave` | pages/Admin.tsx:79-94 | the dialog closes; an edit keeps the id order; a new product is put first; the enquiry list and the flag are kept |
| `AdminPage.EditUnchangedSave` | pages/Admin.tsx:64-94 | opening a listed product and saving it untouched leaves the catalog as it was |
| `AdminPage.HandleLogin` | pages/Admin.tsx:13-20 | as written: the store never changes; admin/admin leaves the form as it was; anything else gives the page's error |
| `AdminPage.HandleLoginFixed` | pages/Admin.tsx:13-20 | corrected: the flag rises exactly when the page's admin/admin test passes |
| `AdminPage.Route` | pages/Admin.tsx:96 | the dashboard shows exactly when the flag is up, the login form otherwise |
| `AdminPage.Step` | pages/Admin.tsx:7-221 | while logged out, nothing but the login submit can change the store; while logged in, the login form is kept or reset |
| `AdminPage.StepValid` | pages/Admin.tsx:79-146 | every page event keeps the store invariant, given fresh ids |
| `AdminPage.RunValid` | pages/Admin.tsx:79-146 | every event sequence with fresh ids keeps the store invariant |
| `AdminPage.AsWrittenLockedOut` | pages/Admin.tsx:16 | as written, a logged-out visitor can never change the store, whatever they type and submit |
| `AdminPage.AdminAdminLogin` | pages/Admin.tsx:13-20 | typing admin/admin: as written the login form stays with no error; corrected, the dashboard appears |
| `Layout.CartCount` | components/Layout.tsx:13 | the left-to-right sum of quantities equals the enquiry list's total |
| `Layout.BadgeIffItems` | components/Layout.tsx:56 | under the invariant the badge shows exactly for a non-empty list, and the count is at least the number of items |
| `Layout.IsActive` | components/Layout.tsx:15 | highlighted exactly when the current path equals the link's path |
| `Layout.AtMostOneHighlighted` | components/Layout.tsx:46-49 | at most one navigation link is highlighted |
| `Layout.DetailsPageHighlightsNothing` | components/Layout.tsx:46-49 | on a product page no link is highlighted, "Products" included |
| `Layout.Menu` | components/Layout.tsx:63-80 | the toggle flips the mobile menu, a link closes it |
| `Layout.MenuToggleTwice` | components/Layout.tsx:63-80 | two toggles restore the menu; after a link it is closed |
| `Layout.EnquiryLinkExtendsChatLink` | components/Layout.tsx:93 | the enquiry link opens the same chat as the floating button |
| `ProductDetails.Find` | pages/ProductDetails.tsx:14 | a record is found exactly when some record has the id, and it has that id |
| `ProductDetails.FindFirst` | pages/ProductDetails.tsx:14 | the found record is the first with the id |
| `ProductDetails.FindUnique` | pages/ProductDetails.tsx:14-15 | with unique ids, the record with the id is found |
| `ProductDetails.LookupEffect` | pages/ProductDetails.tsx:13-17 | a miss redirects to the product list; a hit shows a catalog record with the id |
| `ProductDetails.FirstVisit` | pages/ProductDetails.tsx:13-19 | on first render nothing is shown exactly when the page redirects |
| `ProductDetails.AddShown` | pages/ProductDetails.tsx:98 | the shown product's id is in the enquiry list afterwards; the catalog and flag are kept |
| `ProductDetails.AddShownTotal` | pages/ProductDetails.tsx:98 | the add keeps the invariant and raises the total by one |
| `Contact.HandleChange` | pages/Contact.tsx:15-17 | the named field takes the value; every other field keeps its value |
| `Contact.FieldsDetermineForm` | pages/Contact.tsx:6-12 | the five fields determine the form |
| `Contact.ChangeBack` | pages/Contact.tsx:15-17 | typing a value and then the old value back restores the form |
| `Contact.ButtonLabel` | pages/Contact.tsx:149-158 | "Sending...", "Message Sent!" or "Send Message" by status |
| `Contact.Step` | pages/Contact.tsx:19-29 | submit (when enabled) moves to submitting; a disabled submit changes nothing; the timer marks success and clears all five fields |
| `Contact.StepReachable` | pages/Contact.tsx:13-29 | each event keeps: no error status, at most one send in flight, one exactly while submitting |
| `Contact.RunReachable` | pages/Contact.tsx:13-29 | every event sequence keeps that invariant |
| `Contact.NeverError` | pages/Contact.tsx:13 | the error status is never entered |
| `Contact.SuccessSticky` | pages/Contact.tsx:146 | once sent, the page stays sent: the button is disabled for good |
| `Contact.SendScenario` | pages/Contact.tsx:19-29 | typing, sending and the timer give a sent page with an empty form |
| `Text.Split` | pages/Admin.tsx:84 | `split(',')`: one piece more than there are separators, none containing a separator |
| `Text.Join` | pages/Admin.tsx:69-70 | `join(d)`: "" for no elements, the element itself for one, and otherwise a text starting with the first element |
| `Text.SplitJoin` | pages/Admin.tsx:69-85 | splitting a list joined with "," plus padding gives the first element and the others behind their padding |
| `Text.JoinSplit` | pages/Admin.tsx:84 | joining the pieces of a split with the separator gives the text back |
| `Text.Trim` | pages/Admin.tsx:84-85 | `trim()` leaves no space at either end |
| `Text.TrimSlice` | pages/Admin.tsx:84-85 | `trim()` keeps one slice of the text, with only spaces outside it |
| `Text.TrimIdempotent` | pages/Admin.tsx:84-85 | trimming twice is trimming once |
| `Text.Lower` | pages/Products.tsx:17-18 | `toLowerCase()` maps each character, keeping the length |
| `Text.LowerAppend` | pages/Products.tsx:17-18 | lower-casing distributes over concatenation |
| `Text.ContainsIffOccurs` | pages/Products.tsx:17-18 | `includes` holds exactly when the needle occurs at some position |
| `Text.ContainsPrefix` | pages/Products.tsx:17-18 | a text containing a longer term contains each of its prefixes |
| `Text.NatToString` | pages/Cart.tsx:12 | a quantity renders as a non-empty string of digits |
| `Text.ParseNatToString` | pages/Cart.tsx:12 | the rendered digits read back as the quantity |
| `Text.IntToString` | pages/Cart.tsx:12 | the rendering of an integer has no newline |
| `Uri.EncodeChar` | pages/Cart.tsx:15 | an unreserved character is kept as is; any other becomes its UTF-8 bytes as `%XY` escapes |
| `Uri.Encode` | pages/Cart.tsx:15 | `encodeURIComponent` produces only URI-safe characters |
| `Uri.DecodeEncode` | pages/Cart.tsx:15 | decoding the encoding gives the text back |
| `Uri.EncodeInjective` | pages/Cart.tsx:15 | different texts encode differently |
| `Seqs.Filter` | services/store.tsx:43 | `filter` keeps only elements satisfying the test, and keeps every element that does |
| `Seqs.FilterCount` | services/store.tsx:43 | each passing element is kept as many times as it occurs, each failing one not at all, so with `Seqs.Filter` the result holds exactly the passing elements |
| `Seqs.Take` | pages/Home.tsx:9 | `slice(0, n)` is a prefix of length min(n, length) |
| `Seqs.FilterIsSubsequence` | services/store.tsx:43 | a filter result is an order-preserving subsequence |
| `Seqs.FilterAll` | services/store.tsx:43 | a filter that keeps everything changes nothing |
| `Seqs.FilterMonotone` | pages/Products.tsx:16-21 | a weaker test keeps a super-sequence |
| `Seqs.FilterKeepsDistinct` | services/store.tsx:104 | filtering keeps keys distinct |

## Left out

- The upload of an image file (`URL.createObjectURL`) is not modelled. A new file is an `Option<string>` handle passed in. The admin dialog has no file input and never passes one.
- `Date.now()` ids are not modelled. They are parameters, and freshness is a hypothesis of the invariant lemmas (`Store.FreshFor`, `AdminPage.FreshEvent`). The page's own stamp for a new product is overwritten by the store's.
- `isLoading`, the `async`/Promise wrappers, React's batching and re-rendering, and the `useStore` provider check are left out. Store operations are synchronous functions.
- The AI chat widget, the language-model service and the Supabase client are left out. They are external calls with no store logic.
- Routing (`App.tsx`) is not modelled. Pages take the current path or route id as a parameter.
- `ProductCard`, the About page, and all markup and styling are left out. This includes the detail page's crop and benefit chips, which list the stored sequences in order.
- HTML `required` validation on the admin dialog and the contact form is not modelled. The model lets those forms submit empty fields.
- The contact form's 1.5-second timer is not modelled as time. It becomes a `TimerDone` event.
- The contact page's company details text is left out. It is static text.
- `Text.Lower`: only ASCII letters are lower-cased. Full Unicode case mapping, which can change length, is not modelled. The filter's lemmas hold for any per-character map.
- Text.IntToString: only integers are rendered, in plain decimal. Quantities only ever move by ±1 from 1, so they are never fractional. JavaScript would switch to exponent form from 10^21 up, which the model does not reproduce.
- Cart.UpdateQuantity, CartPage.Increment, Layout.CartCount: quantities and the badge count are unbounded integers. In JavaScript they are doubles, so `quantity + 1` stops changing above 2^53. The model assumes every quantity and total stays below 2^53, far beyond any reachable by clicking.
- `Uri.Encode`: lone surrogates, for which `encodeURIComponent` throws, do not exist among Dafny's `char` values.
- `price` is an integer. It is used for display only, so floating point is not modelled.
- The second parameter of `deleteProduct`, an image URL, is unused by the store. The dashboard passes only the id, and the model has no such parameter.

## Findings

| source | as written | input that shows it | evidently intended | confidence | as-written member | corrected member |
|---|---|---|---|---|---|---|
| pages/Admin.tsx:16 | `handleLogin` calls `loginAdmin()` with no arguments. The store compares `undefined` with the administrator's e-mail and password, refuses, and the refusal is dropped. | Username "admin", password "admin", submitted from the initial store. The flag stays down and no error line appears (`AdminPage.AdminAdminLogin`). | Pass the administrator's e-mail and the entered password. Then the page's admin/admin test leads to the dashboard. | not executed | `AdminPage.HandleLogin` | `AdminPage.HandleLoginFixed` |
