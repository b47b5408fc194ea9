/**
 * The client's copy of the catalog (`SweetContext`): a list of sweets replaced after each
 * call to the server. Each operation calls the corresponding server route and, on success,
 * applies one list transform: prepend, replace by id or remove by id.
 */
module SweetList {
  import opened Wrappers
  import opened Http
  import opened Text
  import opened Messages
  import opened Domain
  import opened Guard
  import opened Inventory
  import opened ById

  function SweetId(s: Sweet): int
  {
    s.id
  }

  /** `list.map(s => s.id === id ? x : s)`. */
  function ReplaceById(xs: seq<Sweet>, id: int, x: Sweet): (r: seq<Sweet>)
    ensures |r| == |xs|
    ensures forall i :: 0 <= i < |xs| && xs[i].id != id ==> r[i] == xs[i]
    ensures forall i :: 0 <= i < |xs| && xs[i].id == id ==> r[i] == x
  {
    if xs == [] then [] else [if xs[0].id == id then x else xs[0]] + ReplaceById(xs[1..], id, x)
  }

  /**
   * Replacing with an element that keeps the id keeps every id in place, and doing it
   * twice is the same as once.
   */
  lemma ReplaceKeepsIds(xs: seq<Sweet>, id: int, x: Sweet)
    requires x.id == id
    ensures forall i :: 0 <= i < |xs| ==> ReplaceById(xs, id, x)[i].id == xs[i].id
    ensures ReplaceById(ReplaceById(xs, id, x), id, x) == ReplaceById(xs, id, x)
  {
    var r := ReplaceById(xs, id, x);
    var rr := ReplaceById(r, id, x);
    assert |rr| == |r|;
    forall i | 0 <= i < |r| ensures rr[i] == r[i] {
      assert r[i].id == xs[i].id;
    }
  }

  const PurchaseFailed := "Purchase failed. Check stock or try again."
  const NotLoggedIn := "User not logged in"

  /** `error.response?.data?.message || fallback`. */
  function MessageOr(message: string, fallback: string): (m: string)
    ensures message != "" ==> m == message
    ensures message == "" ==> m == fallback
    ensures fallback != "" ==> m != ""
  {
    if message != "" then message else fallback
  }

  class SweetStore {
    var sweets: seq<Sweet>
    var loading: bool

    constructor ()
      ensures sweets == [] && !loading
    {
      sweets := [];
      loading := false;
    }

    /**
     * `loadSweets`: the whole list becomes the unfiltered search result; a failed call
     * (`failed`, the network or a server error) leaves it as it was. Loading is off
     * afterwards either way.
     */
    method LoadSweets(server: Catalog, failed: bool)
      requires server.Valid()
      modifies this
      ensures !loading
      ensures sweets == if failed then old(sweets) else server.Search(NoFilter)
      ensures !failed ==> forall i :: 0 <= i < |sweets| ==> sweets[i].id in server.sweets && server.sweets[sweets[i].id] == sweets[i]
      ensures !failed ==> forall k :: k in server.sweets ==> server.sweets[k] in sweets
    {
      loading := true;
      if !failed {
        sweets := server.Search(NoFilter);
        forall k | k in server.sweets ensures server.sweets[k] in sweets {
          QueryMeaning(NoFilter, server.sweets[k]);
        }
      }
      loading := false;
    }

    /** `addSweet`: the stored row is put at the front; a failed call changes nothing. */
    method AddSweet(server: Catalog, auth: Gate, fields: SweetFields) returns (r: Reply<Sweet>)
      requires server.Valid()
      modifies this, server
      ensures server.Valid()
      ensures r.Ok? <==> auth.Next?
      ensures r.Ok? ==> sweets == [r.body] + old(sweets) && r.body.id in server.sweets && server.sweets[r.body.id] == r.body
      ensures r.Ok? ==> r.body == Stored(r.body.id, fields) && r.body.id !in old(server.sweets)
      ensures r.Ok? ==> server.sweets == old(server.sweets)[r.body.id := r.body]
      ensures server.ledger == old(server.ledger)
      ensures r.Fail? ==> sweets == old(sweets) && server.sweets == old(server.sweets)
    {
      r := server.Create(auth, fields);
      if r.Ok? {
        sweets := [r.body] + sweets;
      }
    }

    /** `updateSweet`: the element with the id becomes the server's updated row. */
    method UpdateSweet(server: Catalog, auth: Gate, id: int, payload: Patch) returns (r: Reply<Sweet>)
      requires server.Valid()
      modifies this, server
      ensures server.Valid()
      ensures r.Ok? <==> auth.Next? && id in old(server.sweets)
      ensures r.Ok? ==> sweets == ReplaceById(old(sweets), id, r.body)
      ensures r.Ok? ==>
        && r.body == Merge(old(server.sweets)[id], WithoutId(payload))
        && server.sweets == old(server.sweets)[id := r.body]
      ensures server.ledger == old(server.ledger) && server.nextId == old(server.nextId)
      ensures r.Ok? ==> forall i :: 0 <= i < |sweets| ==> sweets[i].id == old(sweets)[i].id
      ensures r.Ok? ==> id in server.sweets && forall i :: 0 <= i < |sweets| && sweets[i].id == id ==> sweets[i] == server.sweets[id]
      ensures r.Fail? ==> sweets == old(sweets) && server.sweets == old(server.sweets)
    {
      r := server.Update(auth, id, payload);
      if r.Ok? {
        ReplaceKeepsIds(sweets, id, r.body);
        sweets := ReplaceById(sweets, id, r.body);
      }
    }

    /** `deleteSweet`: every element with the id leaves the list, the rest keep their order. */
    method DeleteSweet(server: Catalog, auth: Gate, id: int) returns (r: Reply<()>)
      requires server.Valid()
      modifies this, server
      ensures server.Valid()
      ensures r.Ok? <==> ThenAdmin(auth).Next? && id in old(server.sweets)
      ensures r.Ok? ==> sweets == Without(old(sweets), SweetId, id) && server.sweets == old(server.sweets) - {id}
      ensures server.ledger == old(server.ledger) && server.nextId == old(server.nextId)
      ensures r.Ok? ==> forall i :: 0 <= i < |sweets| ==> sweets[i].id != id
      ensures r.Fail? ==> sweets == old(sweets) && server.sweets == old(server.sweets)
    {
      r := server.Delete(auth, id);
      if r.Ok? {
        WithoutMembers(sweets, SweetId, id);
        sweets := Without(sweets, SweetId, id);
        forall i | 0 <= i < |sweets| ensures sweets[i].id != id {
          assert sweets[i] in sweets;
        }
      }
    }

    /**
     * `purchaseSweet`: without a logged-in user nothing is sent; otherwise the element with
     * the id becomes the server's row after the sale, or, on failure, the list stays and the
     * server's message (or the default) is returned.
     */
    method PurchaseSweet(server: Catalog, loggedIn: bool, auth: Gate, id: int, qty: int, now: int)
      returns (ok: bool, message: string, notice: Notice)
      requires server.Valid()
      modifies this, server
      ensures server.Valid()
      ensures !loggedIn ==>
        && !ok && message == NotLoggedIn
        && notice == Notice("Please log in to purchase sweets.", Error)
        && sweets == old(sweets)
        && server.sweets == old(server.sweets) && server.ledger == old(server.ledger)
      ensures loggedIn ==> (ok <==> auth.Next? && CanBuy(old(server.sweets), id, QuantityOr(Some(qty), 1)))
      ensures loggedIn && ok ==>
        && id in old(server.sweets)
        && server.sweets == Bought(old(server.sweets), id, QuantityOr(Some(qty), 1))
        && id in server.sweets
        && sweets == ReplaceById(old(sweets), id, server.sweets[id])
        && notice == Notice("Successfully purchased " + Show(qty) + " kg of " + server.sweets[id].name + ".", Success)
        && auth.Next?
        && server.ledger == old(server.ledger) + [PurchaseRecord(auth.user.id, id, QuantityOr(Some(qty), 1), now)]
      ensures loggedIn && !ok ==>
        && sweets == old(sweets)
        && server.sweets == old(server.sweets) && server.ledger == old(server.ledger)
        && message == MessageOr(PurchaseRefusal(auth, old(server.sweets), id), PurchaseFailed)
        && message != "" && notice == Notice(message, Error)
    {
      if !loggedIn {
        return false, NotLoggedIn, Notice("Please log in to purchase sweets.", Error);
      }
      var r := server.Purchase(auth, id, Some(qty), now);
      if r.Ok? {
        sweets := ReplaceById(sweets, id, r.body);
        ok, message, notice := true, "", Notice("Successfully purchased " + Show(qty) + " kg of " + r.body.name + ".", Success);
      } else {
        message := MessageOr(r.message, PurchaseFailed);
        ok, notice := false, Notice(message, Error);
      }
    }

    /** `restockSweet`: the element with the id becomes the server's restocked row. */
    method RestockSweet(server: Catalog, auth: Gate, id: int, qty: Option<int>) returns (r: Reply<Sweet>)
      requires server.Valid()
      modifies this, server
      ensures server.Valid()
      ensures r.Ok? <==> ThenAdmin(auth).Next? && id in old(server.sweets)
      ensures r.Ok? ==> id in server.sweets && sweets == ReplaceById(old(sweets), id, server.sweets[id])
      ensures r.Ok? ==>
        server.sweets == old(server.sweets)[id := old(server.sweets)[id].(quantity := old(server.sweets)[id].quantity + QuantityOr(qty, 10))]
      ensures server.ledger == old(server.ledger) && server.nextId == old(server.nextId)
      ensures r.Fail? ==> sweets == old(sweets) && server.sweets == old(server.sweets)
    {
      r := server.Restock(auth, id, qty);
      if r.Ok? {
        sweets := ReplaceById(sweets, id, r.body);
      }
    }
  }
}
