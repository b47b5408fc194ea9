/**
 * The cart page's checkout (`handlePurchase`): one purchase call per cart line, in cart
 * order, stopping at the first call that fails. Earlier purchases are not rolled back and
 * the cart is cleared only when every call went through.
 */
module Checkout {
  import opened Wrappers
  import opened Http
  import opened Text
  import opened Messages
  import opened Domain
  import opened Guard
  import opened Inventory
  import opened ShoppingCart
  import opened SweetList

  /** The quantity the server reads from the request body `{quantity: item.quantity}`. */
  function LineQuantity(line: CartLine): int
  {
    QuantityOr(Some(line.quantity), 1)
  }

  /**
   * The purchase calls for `lines`, in order, against the table `rows`: how many went
   * through before the first failure (or the end), and the table after them.
   */
  function Run(auth: Gate, rows: map<int, Sweet>, lines: seq<CartLine>): (r: (nat, map<int, Sweet>))
    ensures r.0 <= |lines|
    ensures r.1.Keys == rows.Keys
  {
    if lines == [] || auth.Reject? || !CanBuy(rows, lines[0].id, LineQuantity(lines[0])) then (0, rows)
    else
      var next := Run(auth, Bought(rows, lines[0].id, LineQuantity(lines[0])), lines[1..]);
      (next.0 + 1, next.1)
  }

  /** Total quantity the lines buy of sweet `id`. */
  function Sold(lines: seq<CartLine>, id: int): int
  {
    if lines == [] then 0
    else (if lines[0].id == id then LineQuantity(lines[0]) else 0) + Sold(lines[1..], id)
  }

  /**
   * Checkout stops exactly at its first failure: the lines before it all went through, in
   * the sense that running them alone succeeds throughout and ends in the same table, and
   * the line where it stopped could not be bought from that table.
   */
  lemma {:induction false} RunStopsAtFirstFailure(auth: Gate, rows: map<int, Sweet>, lines: seq<CartLine>)
    ensures var (n, after) := Run(auth, rows, lines);
      && Run(auth, rows, lines[..n]) == (n, after)
      && (n < |lines| ==> auth.Reject? || !CanBuy(after, lines[n].id, LineQuantity(lines[n])))
  {
    var (n, after) := Run(auth, rows, lines);
    if lines != [] && auth.Next? && CanBuy(rows, lines[0].id, LineQuantity(lines[0])) {
      var rows' := Bought(rows, lines[0].id, LineQuantity(lines[0]));
      RunStopsAtFirstFailure(auth, rows', lines[1..]);
      assert lines[..n][0] == lines[0];
      assert lines[..n][1..] == lines[1..][..n - 1];
      assert n < |lines| ==> lines[n] == lines[1..][n - 1];
    }
  }

  /**
   * Stock is conserved across a checkout: for every sweet, the stock afterwards plus what
   * the successful lines bought of it is the stock before; and stock that was never
   * negative stays so, whatever the cart holds.
   */
  lemma {:induction false} RunConservesStock(auth: Gate, rows: map<int, Sweet>, lines: seq<CartLine>)
    ensures var (n, after) := Run(auth, rows, lines);
      forall k :: k in rows ==> after[k].quantity + Sold(lines[..n], k) == rows[k].quantity
    ensures StockNonNegative(rows) ==> StockNonNegative(Run(auth, rows, lines).1)
  {
    var (n, after) := Run(auth, rows, lines);
    if lines != [] && auth.Next? && CanBuy(rows, lines[0].id, LineQuantity(lines[0])) {
      var q := LineQuantity(lines[0]);
      var rows' := Bought(rows, lines[0].id, q);
      RunConservesStock(auth, rows', lines[1..]);
      assert lines[..n][0] == lines[0];
      assert lines[..n][1..] == lines[1..][..n - 1];
      if StockNonNegative(rows) {
        BoughtKeepsStockNonNegative(rows, lines[0].id, q);
      }
    } else {
      assert lines[..n] == [];
    }
  }

  /**
   * The ledger rows the first `n` calls of the cart append for the caller `auth`: the
   * i-th call is stamped `clock(i)`; a refused caller appends nothing.
   */
  function Appended(auth: Gate, lines: seq<CartLine>, n: nat, clock: nat -> int): (rows: seq<PurchaseRecord>)
    requires n <= |lines|
    ensures |rows| == (if auth.Next? then n else 0)
  {
    if n == 0 || auth.Reject? then []
    else
      Appended(auth, lines, n - 1, clock)
      + [PurchaseRecord(auth.user.id, lines[n - 1].id, LineQuantity(lines[n - 1]), clock(n - 1))]
  }

  /**
   * Each successful call leaves its own row: the i-th appended row records the caller,
   * line i's sweet and quantity, and the time `clock(i)`.
   */
  lemma {:induction false} AppendedRows(auth: Gate, lines: seq<CartLine>, n: nat, clock: nat -> int)
    requires n <= |lines| && auth.Next?
    ensures forall i :: 0 <= i < n ==>
      Appended(auth, lines, n, clock)[i] == PurchaseRecord(auth.user.id, lines[i].id, LineQuantity(lines[i]), clock(i))
  {
    if n > 0 {
      AppendedRows(auth, lines, n - 1, clock);
    }
  }

  /** A line that can be bought: the run from it is one more than the run after it. */
  lemma RunGoesOn(auth: Gate, rows: map<int, Sweet>, lines: seq<CartLine>, k: nat)
    requires k < |lines| && auth.Next? && CanBuy(rows, lines[k].id, LineQuantity(lines[k]))
    ensures Run(auth, rows, lines[k..]).0 == Run(auth, Bought(rows, lines[k].id, LineQuantity(lines[k])), lines[k + 1..]).0 + 1
    ensures Run(auth, rows, lines[k..]).1 == Run(auth, Bought(rows, lines[k].id, LineQuantity(lines[k])), lines[k + 1..]).1
  {
    assert lines[k..][0] == lines[k] && lines[k..][1..] == lines[k + 1..];
  }

  /** A line that cannot be bought ends the run where it stands. */
  lemma RunStops(auth: Gate, rows: map<int, Sweet>, lines: seq<CartLine>, k: nat)
    requires k < |lines| && (auth.Reject? || !CanBuy(rows, lines[k].id, LineQuantity(lines[k])))
    ensures Run(auth, rows, lines[k..]).0 == 0
    ensures Run(auth, rows, lines[k..]).1 == rows
  {
    assert lines[k..][0] == lines[k];
  }

  const CheckoutFailed := "An unexpected error occurred during checkout. Please check stock and try again."

  function Receipt(total: int): Notice
  {
    Notice("Purchase successful! Total: \U{20B9}" + Show(total) + ". Thank you!", Success)
  }

  /** The cart page's own state. */
  class CartPage {
    var isProcessing: bool

    constructor ()
      ensures !isProcessing
    {
      isProcessing := false;
    }

    /** The Purchase button is disabled for an empty cart and while a checkout runs. */
    predicate PurchaseDisabled(items: seq<CartLine>)
      reads this
    {
      |items| == 0 || isProcessing
    }

    /** One request of the loop: `POST /sweets/:id/purchase` with the line's quantity. */
    method BuyLine(server: Catalog, auth: Gate, line: CartLine, now: int) returns (r: Reply<Sweet>)
      requires server.Valid()
      modifies server
      ensures server.Valid() && server.nextId == old(server.nextId)
      ensures r.Ok? <==> auth.Next? && CanBuy(old(server.sweets), line.id, LineQuantity(line))
      ensures r.Ok? ==>
        && server.sweets == Bought(old(server.sweets), line.id, LineQuantity(line))
        && server.ledger == old(server.ledger) + [PurchaseRecord(auth.user.id, line.id, LineQuantity(line), now)]
      ensures r.Fail? ==> server.sweets == old(server.sweets) && server.ledger == old(server.ledger)
      ensures r.Fail? ==> r.message == PurchaseRefusal(auth, old(server.sweets), line.id)
    {
      r := server.Purchase(auth, line.id, Some(line.quantity), now);
    }

    /**
     * The `for` loop of `handlePurchase`: one purchase call per line, in order, stopping at
     * the first failure, whose message (the server's, or the default) is returned.
     */
    method BuyEach(server: Catalog, auth: Gate, items: seq<CartLine>, clock: nat -> int)
      returns (k: nat, failure: Option<string>)
      requires server.Valid()
      modifies server
      ensures server.Valid() && server.nextId == old(server.nextId)
      ensures k == Run(auth, old(server.sweets), items).0
      ensures server.sweets == Run(auth, old(server.sweets), items).1
      ensures server.ledger == old(server.ledger) + Appended(auth, items, k, clock)
      ensures failure.None? <==> k == |items|
      ensures failure.Some? ==> k < |items| && failure.value != ""
      ensures failure.Some? ==>
        failure.value == MessageOr(PurchaseRefusal(auth, server.sweets, items[k].id), CheckoutFailed)
    {
      k := 0;
      ghost var total := Run(auth, server.sweets, items);
      assert items[0..] == items;
      while k < |items|
        invariant 0 <= k <= |items|
        invariant server.Valid() && server.nextId == old(server.nextId)
        invariant Run(auth, server.sweets, items[k..]).0 == total.0 - k
        invariant Run(auth, server.sweets, items[k..]).1 == total.1
        invariant server.ledger == old(server.ledger) + Appended(auth, items, k, clock)
      {
        ghost var before := server.sweets;
        var r := BuyLine(server, auth, items[k], clock(k));
        if r.Fail? {
          RunStops(auth, before, items, k);
          return k, Some(MessageOr(r.message, CheckoutFailed));
        }
        RunGoesOn(auth, before, items, k);
        k := k + 1;
      }
      assert items[k..] == [];
      failure := None;
    }

    /**
     * `handlePurchase`. Without a logged-in user: an error, a move to `/login`, no call
     * and no change. Otherwise the calls of `Run`, each appending its ledger row; if all
     * went through, the cart is cleared, the catalog reloaded (`reloadFails` says whether
     * that call fails) and the receipt shows the cart's total from before; if one failed,
     * the cart stays as it was and its error is shown. The processing flag is off at the end.
     */
    method HandlePurchase(cart: Cart, store: SweetStore, server: Catalog, loggedIn: bool, auth: Gate,
                          clock: nat -> int, reloadFails: bool)
      returns (bought: nat, notice: Notice, nav: Option<string>)
      requires server.Valid()
      modifies this, cart, store, server
      ensures server.Valid() && server.nextId == old(server.nextId)
      ensures isProcessing == (old(isProcessing) && !loggedIn)
      ensures !loggedIn ==>
        && notice == Notice("Please log in to complete your purchase.", Error) && nav == Some("/login")
        && bought == 0 && cart.items == old(cart.items) && cart.stored == old(cart.stored)
        && store.sweets == old(store.sweets)
        && server.sweets == old(server.sweets) && server.ledger == old(server.ledger)
      ensures loggedIn ==>
        && (bought, server.sweets) == Run(auth, old(server.sweets), old(cart.items))
        && server.ledger == old(server.ledger) + Appended(auth, old(cart.items), bought, clock)
      ensures loggedIn && bought == |old(cart.items)| ==>
        && cart.items == [] && cart.Synced()
        && store.sweets == (if reloadFails then old(store.sweets) else server.Search(NoFilter))
        && notice == Receipt(TotalPrice(old(cart.items))) && nav == Some("/dashboard")
      ensures loggedIn && bought < |old(cart.items)| ==>
        && cart.items == old(cart.items) && cart.stored == old(cart.stored)
        && store.sweets == old(store.sweets)
        && notice == Notice(MessageOr(PurchaseRefusal(auth, server.sweets, old(cart.items)[bought].id), CheckoutFailed), Error)
        && notice.text != "" && nav == None
      ensures loggedIn ==> (PurchaseDisabled(cart.items) <==> cart.items == [])
    {
      if !loggedIn {
        return 0, Notice("Please log in to complete your purchase.", Error), Some("/login");
      }
      isProcessing := true;
      var items := cart.items;
      var total := TotalPrice(items);
      var failure;
      bought, failure := BuyEach(server, auth, items, clock);
      if failure.None? {
        var cleared := cart.ClearCart();
        store.LoadSweets(server, reloadFails);
        notice, nav := Receipt(total), Some("/dashboard");
      } else {
        notice, nav := Notice(failure.value, Error), None;
      }
      isProcessing := false;
    }
  }
}
