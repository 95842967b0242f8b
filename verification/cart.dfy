/**
 The cart: `handleAddToCart` and `calculateSubtotal`.
 */
module Cart {
  import opened Seqs
  import opened Catalog

  /** An offer snapshot with the quantity the user typed. */
  datatype LineItem = LineItem(offer: Offer, quantity: int)

  /**
   What `parseInt` made of the text typed into the quantity prompt (a
   cancelled prompt gives `NaN` as well). How text becomes a number is not
   part of this model.
   */
  datatype ParsedInt = Number(value: int) | NaN

  const InvalidQuantityMessage: string := "Invalid quantity."

  datatype AddResult =
    | Added(cart: seq<LineItem>)
    | Refused(message: string)   // an alert; the cart is left as it was

  /** Every line holds at least one unit. */
  ghost predicate WellFormed(cart: seq<LineItem>)
  {
    forall i :: 0 <= i < |cart| ==> cart[i].quantity >= 1
  }

  /**
   `handleAddToCart`: appends a new line when the quantity is a positive
   number, never merging it with an existing line for the same offer.
   */
  function AddToCart(cart: seq<LineItem>, item: Offer, entered: ParsedInt): (r: AddResult)
    ensures r.Added? <==> entered.Number? && entered.value > 0
    ensures r.Added? ==> |r.cart| == |cart| + 1 && r.cart[..|cart|] == cart
                         && r.cart[|cart|] == LineItem(item, entered.value)
    ensures r.Refused? ==> r.message == InvalidQuantityMessage
    ensures r.Added? && WellFormed(cart) ==> WellFormed(r.cart)
  {
    match entered
    case Number(q) =>
      if q > 0 then
        var c := cart + [LineItem(item, q)];
        assert c[..|cart|] == cart;
        Added(c)
      else Refused(InvalidQuantityMessage)
    case NaN => Refused(InvalidQuantityMessage)
  }

  /** The cart after an add attempt: the new cart, or the old one on refusal. */
  function CartAfter(cart: seq<LineItem>, r: AddResult): (c: seq<LineItem>)
  {
    match r
    case Added(c) => c
    case Refused(_) => cart
  }

  /** Adding the same offer twice gives two lines, not one merged line. */
  lemma RepeatedAddKeepsSeparateLines(cart: seq<LineItem>, item: Offer, q1: int, q2: int)
    requires q1 > 0 && q2 > 0
    ensures var c1 := CartAfter(cart, AddToCart(cart, item, Number(q1)));
            var c2 := CartAfter(c1, AddToCart(c1, item, Number(q2)));
            c2 == cart + [LineItem(item, q1), LineItem(item, q2)]
  {
    var c1 := CartAfter(cart, AddToCart(cart, item, Number(q1)));
    assert c1 == cart + [LineItem(item, q1)];
  }

  /** One line's `item.price * item.quantity`. */
  function LineTotal(line: LineItem): (amount: real)
  {
    line.offer.price * line.quantity as real
  }

  /** `calculateSubtotal`: the `reduce` from 0, left to right. */
  function Subtotal(cart: seq<LineItem>): (total: real)
    // the reduce starts from 0, and one line contributes price times quantity
    ensures |cart| == 0 ==> total == 0.0
    ensures |cart| == 1 ==> total == LineTotal(cart[0])
  {
    if cart == [] then 0.0 else Subtotal(cart[..|cart| - 1]) + LineTotal(cart[|cart| - 1])
  }

  /** The subtotal of two carts one after the other is the sum of their subtotals. */
  lemma {:induction false} SubtotalAppend(a: seq<LineItem>, b: seq<LineItem>)
    ensures Subtotal(a + b) == Subtotal(a) + Subtotal(b)
    decreases |b|
  {
    if b == [] {
      assert a + b == a;
    } else {
      var b0 := b[..|b| - 1];
      assert (a + b)[..|a + b| - 1] == a + b0;
      SubtotalAppend(a, b0);
    }
  }

  /** Appending one line raises the subtotal by exactly that line's total. */
  lemma SubtotalAddLine(cart: seq<LineItem>, line: LineItem)
    ensures Subtotal(cart + [line]) == Subtotal(cart) + LineTotal(line)
  {
    assert (cart + [line])[..|cart|] == cart;
  }

  /** With non-negative prices, the subtotal of a well-formed cart is non-negative. */
  lemma {:induction false} SubtotalNonNegative(cart: seq<LineItem>)
    requires WellFormed(cart)
    requires forall i :: 0 <= i < |cart| ==> cart[i].offer.price >= 0.0
    ensures Subtotal(cart) >= 0.0
    decreases |cart|
  {
    if cart != [] {
      var init := cart[..|cart| - 1];
      assert forall i :: 0 <= i < |init| ==> init[i] == cart[i];
      SubtotalNonNegative(init);
      var q := cart[|cart| - 1].quantity as real;
      assert cart[|cart| - 1].offer.price * q >= 0.0;
    }
  }

  /** The order of the lines does not change the subtotal. */
  lemma {:induction false} SubtotalPermutation(a: seq<LineItem>, b: seq<LineItem>)
    requires multiset(a) == multiset(b)
    ensures Subtotal(a) == Subtotal(b)
    decreases |a|
  {
    if a != [] {
      var init, x := a[..|a| - 1], a[|a| - 1];
      assert a == init + [x];
      assert x in multiset(b);
      var k :| 0 <= k < |b| && b[k] == x;
      var rest := b[..k] + b[k + 1..];
      assert b == b[..k] + [x] + b[k + 1..];
      MultisetCancel(init, rest, x, multiset(a));
      SubtotalPermutation(init, rest);
      SubtotalWithout(b, k);
      SubtotalAddLine(init, x);
    }
  }

  /** Taking line `k` out of a cart lowers its subtotal by that line's total. */
  lemma SubtotalWithout(b: seq<LineItem>, k: nat)
    requires k < |b|
    ensures Subtotal(b) == Subtotal(b[..k] + b[k + 1..]) + LineTotal(b[k])
  {
    SpliceAt(b, k);
    SubtotalSplice(b[..k], b[k], b[k + 1..]);
  }

  lemma SubtotalSplice(front: seq<LineItem>, x: LineItem, back: seq<LineItem>)
    ensures Subtotal(front + [x] + back) == Subtotal(front + back) + LineTotal(x)
  {
    SubtotalAppend(front + [x], back);
    SubtotalAddLine(front, x);
    SubtotalAppend(front, back);
  }
}
