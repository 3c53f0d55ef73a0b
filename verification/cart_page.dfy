/** The enquiry-list page: the item rows with their −/+ buttons, and the
    messaging deep link whose text lists every item. */
module CartPage {
  import opened Types
  import Text
  import Uri
  import Constants
  import Cart
  import Store
  import opened Wrappers

  const HeaderLine: string := "Hello RM " + "Agrichem! I am " + "interested in the " + "following products:"
  const FooterLine: string := "Please provide me " + "with a quotation " + "and availability."
  const Header: string := HeaderLine + "\n\n"
  const Footer: string := "\n\n" + FooterLine

  /** `https://wa.me/<number>?text=`. */
  const LinkPrefix: string := "https://wa.me/" + Constants.WhatsAppNumber + "?text="

  /** One line per item: `- *<title>* (<packSize>) x <quantity>`. */
  function ItemLine(item: CartItem): string {
    "- *" + item.product.title + "* (" + item.product.packSize + ") x " + Text.IntToString(item.quantity)
  }

  function ItemLines(cart: Cart.Cart): (r: seq<string>)
    ensures |r| == |cart|
    ensures forall i :: 0 <= i < |cart| ==> r[i] == ItemLine(cart[i])
  {
    seq(|cart|, i requires 0 <= i < |cart| => ItemLine(cart[i]))
  }

  /** The message text: the greeting and a blank line, the item lines
      joined by newlines, then a blank line and the closing request. It
      starts with the greeting, followed by the first item's line when
      there is one, and ends with the request. */
  function Message(cart: Cart.Cart): (r: string)
    ensures Header <= r
    ensures |cart| >= 1 ==> Header + ItemLine(cart[0]) <= r
    ensures |Footer| <= |r| && r[|r| - |Footer|..] == Footer
  {
    var lines := ItemLines(cart);
    var body := Text.Join(lines, "\n");
    FrameEnds(Header, body, Footer);
    if |cart| >= 1 then
      FrameKeepsPrefix(Header, lines[0], body, Footer);
      Header + body + Footer
    else Header + body + Footer
  }

  lemma FrameEnds(h: string, body: string, f: string)
    ensures h <= h + body + f
    ensures |f| <= |h + body + f| && (h + body + f)[|h + body + f| - |f|..] == f
  {
    assert h + body + f == h + (body + f);
  }

  lemma FrameKeepsPrefix(h: string, a: string, body: string, f: string)
    requires a <= body
    ensures h + a <= h + body + f
  {
    assert h + body + f == (h + a) + (body[|a|..] + f);
  }

  /** `generateWhatsAppLink()`. */
  function Link(cart: Cart.Cart): (r: string)
    ensures |r| >= |LinkPrefix| && r[..|LinkPrefix|] == LinkPrefix
    ensures forall i :: |LinkPrefix| <= i < |r| ==> Uri.UriSafe(r[i])
  {
    var r := LinkPrefix + Uri.Encode(Message(cart));
    assert r[|LinkPrefix|..] == Uri.Encode(Message(cart));
    r
  }

  /** What the page shows: the empty state, or the list with the link. */
  datatype View = EmptyState | Enquiry(link: string)

  function Render(cart: Cart.Cart): (r: View)
    ensures r.EmptyState? <==> |cart| == 0
    ensures r.Enquiry? ==> r.link == Link(cart)
  {
    if |cart| == 0 then EmptyState else Enquiry(Link(cart))
  }

  /** The "−" button. */
  function Decrement(s: Store.Store, item: CartItem): Store.Store {
    Store.UpdateQuantity(s, item.id(), item.quantity - 1)
  }

  /** The "+" button. */
  function Increment(s: Store.Store, item: CartItem): Store.Store {
    Store.UpdateQuantity(s, item.id(), item.quantity + 1)
  }

  predicate NoNewline(cart: Cart.Cart) {
    forall i :: 0 <= i < |cart| ==> '\n' !in cart[i].product.title && '\n' !in cart[i].product.packSize
  }

  lemma ItemLineHasNoNewline(item: CartItem)
    requires '\n' !in item.product.title && '\n' !in item.product.packSize
    ensures '\n' !in ItemLine(item)
  {
    var q := Text.IntToString(item.quantity);
    assert ItemLine(item) == "- *" + item.product.title + "* (" + item.product.packSize + ") x " + q;
  }

  /** The message's lines, header and footer included. */
  function AllLines(cart: Cart.Cart): seq<string> {
    [HeaderLine, ""] + ItemLines(cart) + ["", FooterLine]
  }

  lemma JoinPair(a: string, b: string, d: string)
    ensures Text.Join([a, b], d) == a + d + b
  {
    assert [a, b][1..] == [b];
  }

  lemma Regroup(h: string, body: string, f: string, nl: string)
    ensures (h + nl + "") + nl + (body + nl + ("" + nl + f)) == h + nl + nl + body + nl + nl + f
  {
    assert h + nl + "" == h + nl;
    assert "" + nl + f == nl + f;
  }

  lemma DoubleNewline(h: string, body: string, f: string)
    ensures h + "\n" + "\n" + body + "\n" + "\n" + f == h + "\n\n" + body + "\n\n" + f
  {
  }

  /** Joining a header, a blank, the body lines, a blank and a footer
      with newlines gives the header, two newlines, the body, two newlines
      and the footer. */
  lemma JoinFramed(h: string, lines: seq<string>, f: string)
    requires |lines| >= 1
    ensures Text.Join([h, ""] + lines + ["", f], "\n") == h + "\n\n" + Text.Join(lines, "\n") + "\n\n" + f
  {
    var nl := "\n";
    var head, tail := [h, ""], ["", f];
    var body := Text.Join(lines, nl);
    Text.JoinAppend(lines, tail, nl);
    JoinPair("", f, nl);
    Text.JoinAppend(head, lines + tail, nl);
    JoinPair(h, "", nl);
    assert head + lines + tail == head + (lines + tail);
    Regroup(h, body, f, nl);
    DoubleNewline(h, body, f);
  }

  lemma MessageIsJoin(cart: Cart.Cart)
    requires |cart| >= 1
    ensures Text.Join(AllLines(cart), "\n") == Message(cart)
  {
    JoinFramed(HeaderLine, ItemLines(cart), FooterLine);
  }

  lemma NotInConcat(a: string, b: string, c: char)
    requires c !in a && c !in b
    ensures c !in a + b
  {
  }

  lemma FrameHasNoNewline()
    ensures '\n' !in HeaderLine && '\n' !in FooterLine
  {
    var a, b, c, d := "Hello RM ", "Agrichem! I am ", "interested in the ", "following products:";
    assert '\n' !in a && '\n' !in b && '\n' !in c && '\n' !in d;
    NotInConcat(a, b, '\n');
    NotInConcat(a + b, c, '\n');
    NotInConcat(a + b + c, d, '\n');
    var e, f, g := "Please provide me ", "with a quotation ", "and availability.";
    assert '\n' !in e && '\n' !in f && '\n' !in g;
    NotInConcat(e, f, '\n');
    NotInConcat(e + f, g, '\n');
  }

  lemma AllLinesNoNewline(cart: Cart.Cart)
    requires NoNewline(cart)
    ensures forall i :: 0 <= i < |AllLines(cart)| ==> '\n' !in AllLines(cart)[i]
  {
    var lines := ItemLines(cart);
    var all := AllLines(cart);
    forall i | 0 <= i < |all|
      ensures '\n' !in all[i]
    {
      if 2 <= i < 2 + |lines| {
        assert all[i] == lines[i - 2];
        ItemLineHasNoNewline(cart[i - 2]);
      } else if i < 2 {
        FrameHasNoNewline();
        assert all[i] == [HeaderLine, ""][i];
      } else {
        FrameHasNoNewline();
        assert all[i] == ["", FooterLine][i - 2 - |lines|];
      }
    }
  }

  /** Split at newlines, the message reads: the greeting, a blank line, one
      line per item in list order, a blank line, the closing request. So it
      has exactly one item line per enquiry item. */
  lemma MessageLines(cart: Cart.Cart)
    requires |cart| >= 1
    requires NoNewline(cart)
    ensures Text.Split(Message(cart), '\n') == [HeaderLine, ""] + ItemLines(cart) + ["", FooterLine]
    ensures |Text.Split(Message(cart), '\n')| == |cart| + 4
  {
    var all := AllLines(cart);
    MessageIsJoin(cart);
    AllLinesNoNewline(cart);
    Text.SplitJoin(all, '\n', "");
    assert "\n" == ['\n'] + "";
    forall i | 0 <= i < |all| - 1
      ensures Text.Prefixed(all[1..], "")[i] == all[1..][i]
    {
      assert "" + all[1..][i] == all[1..][i];
    }
    assert Text.Prefixed(all[1..], "") == all[1..];
    assert [all[0]] + all[1..] == all;
  }

  /** The link's text parameter decodes to exactly the message. */
  lemma LinkCarriesMessage(cart: Cart.Cart)
    ensures Uri.Decode(Link(cart)[|LinkPrefix|..]) == Some(Message(cart))
  {
    assert Link(cart)[|LinkPrefix|..] == Uri.Encode(Message(cart));
    Uri.DecodeEncode(Message(cart));
  }

  /** Different messages never produce the same link. */
  lemma LinkInjective(a: Cart.Cart, b: Cart.Cart)
    requires Link(a) == Link(b)
    ensures Message(a) == Message(b)
  {
    LinkCarriesMessage(a);
    LinkCarriesMessage(b);
  }

  /** At quantity 1 the "−" request is refused by the store's guard, so the
      store is unchanged. */
  lemma DecrementAtOne(s: Store.Store, item: CartItem)
    requires item.quantity == 1
    ensures Decrement(s, item) == s
  {
  }

  /** The −/+ buttons keep the enquiry-list invariant: quantities never drop
      below 1. "+" sets the item's quantity to one more, "−" to one less
      unless it is 1. */
  lemma ButtonsKeepValid(s: Store.Store, k: int)
    requires Cart.Valid(s.cart)
    requires 0 <= k < |s.cart|
    ensures Cart.Valid(Decrement(s, s.cart[k]).cart) && Cart.Valid(Increment(s, s.cart[k]).cart)
    ensures Increment(s, s.cart[k]).cart[k].quantity == s.cart[k].quantity + 1
    ensures Decrement(s, s.cart[k]).cart[k].quantity == if s.cart[k].quantity > 1 then s.cart[k].quantity - 1 else 1
  {
    var item := s.cart[k];
    Cart.UpdateQuantityValid(s.cart, item.id(), item.quantity - 1);
    Cart.UpdateQuantityValid(s.cart, item.id(), item.quantity + 1);
  }
}
