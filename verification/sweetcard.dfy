/**
 * The add-to-cart controls of a catalog card (`SweetCard`): a quantity input bounded by
 * the stock and a button that is off when the stock or the quantity rules it out.
 */
module SweetCard {
  import opened Wrappers
  import opened Domain
  import opened Messages
  import opened ShoppingCart

  /** The input's `max`: the stock when there is some, else 1. */
  function MaxPurchase(stock: int): (m: int)
    ensures m >= 1
    ensures stock > 0 ==> m == stock
    ensures stock <= 0 ==> m == 1
  {
    if stock > 0 then stock else 1
  }

  /** The button is off for no stock, a non-positive quantity, or more than the stock. */
  predicate IsDisabled(stock: int, qty: int)
    ensures !IsDisabled(stock, qty) ==> 1 <= qty <= MaxPurchase(stock)
  {
    stock <= 0 || qty <= 0 || qty > stock
  }

  function ButtonLabel(stock: int): (text: string)
    ensures text == "Out of stock" <==> stock <= 0
  {
    if stock <= 0 then "Out of stock" else "Add to Cart"
  }

  /** One card's quantity input. */
  class CardState {
    var purchaseQty: int

    constructor ()
      ensures purchaseQty == 1
    {
      purchaseQty := 1;
    }

    /**
     * `handleAddToCart`: adds the chosen quantity only when there is stock and the
     * quantity is positive, without checking it against the stock itself (the cart does),
     * then resets the input to 1.
     */
    method HandleAddToCart(cart: Cart, sweet: Sweet) returns (notice: Option<Notice>)
      modifies this, cart
      ensures sweet.quantity > 0 && old(purchaseQty) > 0 ==>
        && cart.items == Added(old(cart.items), sweet, old(purchaseQty)).items
        && notice == Added(old(cart.items), sweet, old(purchaseQty)).Shown()
        && (Accepted(Added(old(cart.items), sweet, old(purchaseQty))) ==> cart.Synced())
        && (!Accepted(Added(old(cart.items), sweet, old(purchaseQty))) ==> cart.stored == old(cart.stored))
        && purchaseQty == 1
      ensures !(sweet.quantity > 0 && old(purchaseQty) > 0) ==>
        cart.items == old(cart.items) && cart.stored == old(cart.stored) && notice.None? && purchaseQty == old(purchaseQty)
    {
      var qty := purchaseQty;
      notice := None;
      if sweet.quantity > 0 && qty > 0 {
        notice := cart.AddToCart(sweet, qty);
        purchaseQty := 1;
      }
    }
  }
}
