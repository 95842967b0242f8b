/**
 The money shown in the cart: `calculateTotalCost` and the breakdown lines
 of the cart dialog. All amounts are exact; rounding to cents happens only
 when the page prints them.
 */
module Invoice {
  import opened Catalog
  import opened Cart

  const TaxRate: real := 0.08
  const DeliveryFee: real := 112.0
  const DiscountRate: real := 0.03

  /**
   `calculateTotalCost`: subtotal plus 8% tax plus the flat delivery fee,
   less a 3% discount on subtotal and delivery together.
   */
  function TotalCost(cart: seq<LineItem>): (total: real)
    ensures total == 1.05 * Subtotal(cart) + 108.64
  {
    var subtotal := Subtotal(cart);
    var tax := subtotal * TaxRate;
    var delivery := DeliveryFee;
    var discount := (subtotal + delivery) * DiscountRate;
    subtotal + tax + delivery - discount
  }

  /** The five lines of the cart dialog. */
  datatype Summary = Summary(subtotal: real, tax: real, delivery: real, discount: real, total: real)

  /**
   The cart dialog recomputes tax and discount inline, apart from
   `calculateTotalCost`; its lines still add up to the total it prints.
   */
  function CartSummary(cart: seq<LineItem>): (s: Summary)
    // each line is computed from this cart: subtotal, 8% of it, the fee, 3% of both
    ensures s.subtotal == Subtotal(cart)
    ensures s.tax == s.subtotal * TaxRate
    ensures s.discount == (s.subtotal + DeliveryFee) * DiscountRate
    // the bold total is `calculateTotalCost`, and the lines add up to it
    ensures s.total == TotalCost(cart)
    ensures s.total == s.subtotal + s.tax + s.delivery - s.discount
    ensures s.total == 1.05 * s.subtotal + 108.64
    ensures s.delivery == 112.0
    ensures s.subtotal >= 0.0 ==> s.tax >= 0.0 && s.discount >= 3.36 && s.total >= 108.64
  {
    var subtotal := Subtotal(cart);
    Summary(subtotal, subtotal * 0.08, 112.0, (subtotal + 112.0) * 0.03, TotalCost(cart))
  }

  /** An empty cart still pays delivery less its discount: 108.64. */
  lemma EmptyCartTotal()
    ensures TotalCost([]) == 108.64
    ensures CartSummary([]) == Summary(0.0, 0.0, 112.0, 3.36, 108.64)
  {
  }

  /** A larger subtotal never gives a smaller total. */
  lemma TotalMonotone(a: seq<LineItem>, b: seq<LineItem>)
    requires Subtotal(a) <= Subtotal(b)
    ensures TotalCost(a) <= TotalCost(b)
  {
  }

  /** Each successful add raises the total by 105% of the new line's price times quantity. */
  lemma TotalAfterAdd(cart: seq<LineItem>, item: Offer, entered: ParsedInt)
    ensures var r := AddToCart(cart, item, entered);
      && (r.Added? ==> TotalCost(r.cart) == TotalCost(cart) + 1.05 * item.price * entered.value as real)
      && (r.Refused? ==> TotalCost(CartAfter(cart, r)) == TotalCost(cart))
  {
    var r := AddToCart(cart, item, entered);
    if r.Added? {
      SubtotalAddLine(cart, LineItem(item, entered.value));
    }
  }

  /**
   Three units at 20.00 and one at 5.00: subtotal 65.00, tax 5.20, delivery
   112.00, discount 5.31, total 176.89.
   */
  lemma WorkedExample(a: Offer, b: Offer)
    requires a.price == 20.0 && b.price == 5.0
    ensures var cart := CartAfter([LineItem(a, 3)], AddToCart([LineItem(a, 3)], b, Number(1)));
      CartSummary(cart) == Summary(65.0, 5.2, 112.0, 5.31, 176.89)
  {
    var cart := [LineItem(a, 3), LineItem(b, 1)];
    assert cart == [LineItem(a, 3)] + [LineItem(b, 1)];
    SubtotalAddLine([], LineItem(a, 3));
    SubtotalAddLine([LineItem(a, 3)], LineItem(b, 1));
    assert Subtotal(cart) == 65.0;
  }
}
