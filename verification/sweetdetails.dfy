/**
 * The details page of one sweet (`SweetDetails`): the catalog entry the route names and
 * its add-to-cart control, which keeps the chosen quantity after adding.
 */
module SweetDetails {
  import opened Wrappers
  import opened Domain
  import opened Messages
  import opened ShoppingCart
  import opened SweetCard

  /**
   * `sweets.find(s => s.id === Number(id))`: the first entry with the route's id; `None`
   * for a route id that is not a number, and for an id no entry has ("No sweet found").
   */
  function Lookup(sweets: seq<Sweet>, routeId: Option<int>): (r: Option<Sweet>)
    ensures r.Some? ==> routeId.Some? && r.value in sweets && r.value.id == routeId.value
    ensures r.None? <==> routeId.None? || forall i :: 0 <= i < |sweets| ==> sweets[i].id != routeId.value
    ensures r.Some? ==> exists i :: (&& 0 <= i < |sweets| && sweets[i] == r.value
                                     && forall j :: 0 <= j < i ==> sweets[j].id != routeId.value)
  {
    if routeId.None? || sweets == [] then None
    else if sweets[0].id == routeId.value then Some(sweets[0])
    else
      var rest := Lookup(sweets[1..], routeId);
      if rest.Some? then
        assert forall i :: 0 <= i < |sweets[1..]| ==> sweets[1..][i] == sweets[i + 1];
        rest
      else
        rest
  }

  /** The page's quantity input. */
  class DetailsPage {
    var quantityToBuy: int

    constructor ()
      ensures quantityToBuy == 1
    {
      quantityToBuy := 1;
    }

    /** `handleAddToCart`: adds the chosen quantity exactly when the button is enabled, and keeps it. */
    method HandleAddToCart(cart: Cart, sweet: Sweet) returns (notice: Option<Notice>)
      modifies cart
      ensures !IsDisabled(sweet.quantity, quantityToBuy) ==>
        && cart.items == Added(old(cart.items), sweet, quantityToBuy).items
        && notice == Added(old(cart.items), sweet, quantityToBuy).Shown()
        && (Accepted(Added(old(cart.items), sweet, quantityToBuy)) ==> cart.Synced())
        && (!Accepted(Added(old(cart.items), sweet, quantityToBuy)) ==> cart.stored == old(cart.stored))
      ensures IsDisabled(sweet.quantity, quantityToBuy) ==>
        cart.items == old(cart.items) && cart.stored == old(cart.stored) && notice.None?
    {
      notice := None;
      if !IsDisabled(sweet.quantity, quantityToBuy) {
        notice := cart.AddToCart(sweet, quantityToBuy);
      }
    }
  }

  /**
   * Through the enabled button, an add to a cart with no line for the sweet always goes
   * through, and the new line stays within the stock.
   */
  lemma EnabledAddFits(items: seq<CartLine>, sweet: Sweet, qty: int)
    requires !IsDisabled(sweet.quantity, qty)
    requires forall i :: 0 <= i < |items| ==> items[i].id != sweet.id
    ensures Accepted(Added(items, sweet, qty))
    ensures Added(items, sweet, qty).items == items + [LineFor(sweet, qty)]
  {
  }
}
