/** The frame around every page: the navigation links with the current one
    highlighted, the enquiry-list badge, the mobile menu toggle, and the
    messaging and phone links built from the company number. */
module Layout {
  import opened Types
  import Constants
  import Cart
  import CartPage

  /** The badge's number: the quantities summed left to right, as the
      source's `reduce` from 0 does. */
  method CartCount(cart: Cart.Cart) returns (count: int)
    ensures count == Cart.TotalQuantity(cart)
  {
    count := 0;
    var i := 0;
    while i < |cart|
      invariant 0 <= i <= |cart|
      invariant count == Cart.TotalQuantity(cart[..i])
    {
      assert cart[..i + 1][..i] == cart[..i];
      count := count + cart[i].quantity;
      i := i + 1;
    }
    assert cart[..|cart|] == cart;
  }

  /** The badge is drawn only for a positive count. */
  predicate ShowBadge(count: int) {
    count > 0
  }

  /** Since every quantity is at least 1, the badge shows exactly when the
      enquiry list has an item, and never shows fewer than the number of
      items. */
  lemma BadgeIffItems(cart: Cart.Cart)
    requires Cart.Valid(cart)
    ensures ShowBadge(Cart.TotalQuantity(cart)) <==> |cart| > 0
    ensures Cart.TotalQuantity(cart) >= |cart|
  {
    Cart.TotalAtLeastLength(cart);
  }

  /** The two styles a navigation link can take. */
  datatype NavStyle = Highlighted | Plain

  /** `isActive`: highlighted exactly when the current path is the link's. */
  function IsActive(pathname: string, path: string): (r: NavStyle)
    ensures r == Highlighted <==> pathname == path
  {
    if pathname == path then Highlighted else Plain
  }

  /** The desktop navigation targets, in order. */
  const NavPaths: seq<string> := ["/", "/about", "/products", "/contact"]

  lemma NavPathsDistinct()
    ensures forall i, j :: 0 <= i < j < |NavPaths| ==> NavPaths[i] != NavPaths[j]
  {
    assert NavPaths[1][1] == 'a' && NavPaths[2][1] == 'p' && NavPaths[3][1] == 'c';
  }

  /** On any path at most one navigation link is highlighted. */
  lemma AtMostOneHighlighted(pathname: string, i: int, j: int)
    requires 0 <= i < |NavPaths| && 0 <= j < |NavPaths|
    requires IsActive(pathname, NavPaths[i]) == Highlighted && IsActive(pathname, NavPaths[j]) == Highlighted
    ensures i == j
  {
    NavPathsDistinct();
  }

  /** On a product's own page no navigation link is highlighted, not even
      "Products": the comparison is exact, not by prefix. */
  lemma DetailsPageHighlightsNothing(id: string)
    ensures forall i :: 0 <= i < |NavPaths| ==> IsActive("/product/" + id, NavPaths[i]) == Plain
  {
    var path := "/product/" + id;
    assert path[1] == 'p' && path[8] == '/';
    assert |NavPaths[0]| == 1 && NavPaths[1][1] == 'a' && NavPaths[3][1] == 'c';
    assert |NavPaths[2]| == 9 && NavPaths[2][8] == 's';
  }

  /** The mobile menu: the button toggles it, a link in it closes it. */
  datatype MenuEvent = ToggleButton | MenuLink

  function Menu(open: bool, e: MenuEvent): (r: bool)
    ensures e.MenuLink? ==> !r
    ensures e.ToggleButton? ==> r != open
  {
    match e
    case ToggleButton => !open
    case MenuLink => false
  }

  function MenuRun(open: bool, es: seq<MenuEvent>): bool
    decreases |es|
  {
    if |es| == 0 then open else MenuRun(Menu(open, es[0]), es[1..])
  }

  /** Pressing the toggle twice restores the menu, and after a link the
      menu is closed whatever came before. */
  lemma {:induction false} MenuToggleTwice(open: bool, es: seq<MenuEvent>)
    ensures MenuRun(open, [ToggleButton, ToggleButton] + es) == MenuRun(open, es)
    ensures MenuRun(open, es + [MenuLink]) == false
    decreases |es|
  {
    assert ([ToggleButton, ToggleButton] + es)[1..] == [ToggleButton] + es;
    assert ([ToggleButton] + es)[1..] == es;
    if |es| > 0 {
      assert (es + [MenuLink])[1..] == es[1..] + [MenuLink];
      MenuToggleTwice(Menu(open, es[0]), es[1..]);
    }
  }

  /** The floating chat button's target. */
  const ChatLink: string := "https://wa.me/" + Constants.WhatsAppNumber

  /** The phone number shown in the top bar. */
  const PhoneLabel: string := "+" + Constants.WhatsAppNumber

  /** The enquiry link opens the same chat as the floating button, with the
      message attached. */
  lemma EnquiryLinkExtendsChatLink(cart: Cart.Cart)
    ensures CartPage.Link(cart)[..|ChatLink|] == ChatLink
    ensures CartPage.LinkPrefix == ChatLink + "?text="
  {
    var l := CartPage.Link(cart);
    assert l[..|CartPage.LinkPrefix|] == CartPage.LinkPrefix;
    assert CartPage.LinkPrefix[..|ChatLink|] == ChatLink;
  }
}
