/**
 * The catalog routes: public search, create and update for any authenticated caller,
 * delete and restock for admins only, and purchase, which checks the stock, decrements it
 * and appends one row to the purchase ledger. The `sweets` table is a map from id to row,
 * the `purchase_history` table an append-only sequence. Every handler receives the verdict
 * of `protect` for its request as `auth`.
 */
module Inventory {
  import opened Wrappers
  import opened Http
  import opened Text
  import opened Domain
  import opened Guard

  /** The body of a create request: the columns of a new row. */
  datatype SweetFields = SweetFields(
    name: string,
    category: string,
    price: int,
    quantity: int,
    image: string,
    description: string)

  /** The row a create stores under `id`. */
  function Stored(id: int, f: SweetFields): Sweet
  {
    Sweet(id, f.name, f.category, f.price, f.quantity, f.image, f.description)
  }

  /** The body of an update request: each column is either supplied or not, `id` included. */
  datatype Patch = Patch(
    id: Option<int>,
    name: Option<string>,
    category: Option<string>,
    price: Option<int>,
    quantity: Option<int>,
    image: Option<string>,
    description: Option<string>)

  /** `delete updatePayload.id`. */
  function WithoutId(p: Patch): Patch
  {
    p.(id := None)
  }

  /** An SQL `UPDATE ... SET` of the supplied columns. */
  function Merge(s: Sweet, p: Patch): Sweet
  {
    Sweet(
      p.id.GetOr(s.id), p.name.GetOr(s.name), p.category.GetOr(s.category), p.price.GetOr(s.price),
      p.quantity.GetOr(s.quantity), p.image.GetOr(s.image), p.description.GetOr(s.description))
  }

  /**
   * Once the id is stripped, an update keeps the row's id; every supplied column takes the
   * payload's value and every other column keeps its old one.
   */
  lemma MergeWithoutId(s: Sweet, p: Patch)
    ensures Merge(s, WithoutId(p)).id == s.id
    ensures Merge(s, WithoutId(p)) == Merge(s, p).(id := s.id)
    ensures Merge(s, WithoutId(p)).name == (if p.name.Some? then p.name.value else s.name)
    ensures Merge(s, WithoutId(p)).quantity == (if p.quantity.Some? then p.quantity.value else s.quantity)
    ensures (&& p.id.None? && p.name.None? && p.category.None? && p.price.None?
             && p.quantity.None? && p.image.None? && p.description.None?) ==> Merge(s, p) == s
  {
  }

  /** One row of `purchase_history`; `date` is the insertion time. */
  datatype PurchaseRecord = PurchaseRecord(userId: int, sweetId: int, quantity: int, date: int)

  /**
   * `Number(q) || fallback`: an absent or unparsable (`None`) or zero quantity falls back;
   * every other number, a negative one included, is used as it is.
   */
  function QuantityOr(q: Option<int>, fallback: int): (n: int)
    ensures fallback != 0 ==> n != 0
    ensures q.Some? && q.value < 0 ==> n == q.value
  {
    if q.Some? && q.value != 0 then q.value else fallback
  }

  /** The conditions the search handler adds to its query, one `where` each. */
  datatype Where =
    | NameLike(text: string)
    | CategoryIs(category: string)
    | PriceAtLeast(low: int)
    | PriceAtMost(high: int)

  /** The query the search handler builds: one condition per set filter, in handler order. */
  function BuildQuery(f: Filter): (ws: seq<Where>)
    ensures |ws| <= 4
    ensures ws == [] <==> f == NoFilter
  {
    (if f.q != "" then [NameLike(f.q)] else [])
    + (if f.category != "" then [CategoryIs(f.category)] else [])
    + (if f.min.Some? then [PriceAtLeast(f.min.value)] else [])
    + (if f.max.Some? then [PriceAtMost(f.max.value)] else [])
  }

  /** A row satisfies one condition; `LIKE '%q%'` is a case-insensitive substring test. */
  predicate Holds(w: Where, s: Sweet)
  {
    match w
    case NameLike(text) => ContainsIgnoringCase(s.name, text)
    case CategoryIs(c) => s.category == c
    case PriceAtLeast(low) => low <= s.price
    case PriceAtMost(high) => s.price <= high
  }

  /** Chained `where` calls combine with AND. */
  predicate SatisfiesAll(ws: seq<Where>, s: Sweet)
  {
    forall i :: 0 <= i < |ws| ==> Holds(ws[i], s)
  }

  /**
   * Search is conjunctive: a row is selected exactly when its name contains `q` ignoring
   * case, its category equals `category` and its price lies in `[min, max]`, an unset filter
   * constraining nothing.
   */
  lemma {:induction false} QueryMeaning(f: Filter, s: Sweet)
    ensures SatisfiesAll(BuildQuery(f), s) <==>
      && (f.q == "" || ContainsIgnoringCase(s.name, f.q))
      && (f.category == "" || s.category == f.category)
      && (f.min.None? || f.min.value <= s.price)
      && (f.max.None? || s.price <= f.max.value)
  {
    var a := if f.q != "" then [NameLike(f.q)] else [];
    var b := if f.category != "" then [CategoryIs(f.category)] else [];
    var c := if f.min.Some? then [PriceAtLeast(f.min.value)] else [];
    var d := if f.max.Some? then [PriceAtMost(f.max.value)] else [];
    assert BuildQuery(f) == a + b + c + d;
    AllOfConcat(a, b, s);
    AllOfConcat(a + b, c, s);
    AllOfConcat(a + b + c, d, s);
    assert SatisfiesAll(a, s) <==> (f.q == "" || ContainsIgnoringCase(s.name, f.q)) by {
      if f.q != "" { assert a[0] == NameLike(f.q); }
    }
    assert SatisfiesAll(b, s) <==> (f.category == "" || s.category == f.category) by {
      if f.category != "" { assert b[0] == CategoryIs(f.category); }
    }
    assert SatisfiesAll(c, s) <==> (f.min.None? || f.min.value <= s.price) by {
      if f.min.Some? { assert c[0] == PriceAtLeast(f.min.value); }
    }
    assert SatisfiesAll(d, s) <==> (f.max.None? || s.price <= f.max.value) by {
      if f.max.Some? { assert d[0] == PriceAtMost(f.max.value); }
    }
  }

  lemma AllOfConcat(xs: seq<Where>, ys: seq<Where>, s: Sweet)
    ensures SatisfiesAll(xs + ys, s) <==> SatisfiesAll(xs, s) && SatisfiesAll(ys, s)
  {
    if SatisfiesAll(xs, s) && SatisfiesAll(ys, s) {
      forall i | 0 <= i < |xs + ys| ensures Holds((xs + ys)[i], s) {
        if i >= |xs| { assert (xs + ys)[i] == ys[i - |xs|]; }
      }
    }
    if SatisfiesAll(xs + ys, s) {
      forall i | 0 <= i < |xs| ensures Holds(xs[i], s) {
        assert (xs + ys)[i] == xs[i];
      }
      forall i | 0 <= i < |ys| ensures Holds(ys[i], s) {
        assert (xs + ys)[|xs| + i] == ys[i];
      }
    }
  }

  /** Every row is stored under its own id. */
  ghost predicate Keyed(rows: map<int, Sweet>)
  {
    forall k :: k in rows ==> rows[k].id == k
  }

  /** A table scan over the ids `lo..hi-1` in ascending (rowid) order, keeping the rows the query selects. */
  function Scan(rows: map<int, Sweet>, ws: seq<Where>, lo: int, hi: int): (r: seq<Sweet>)
    requires Keyed(rows)
    ensures forall i :: 0 <= i < |r| ==>
      lo <= r[i].id < hi && r[i].id in rows && rows[r[i].id] == r[i] && SatisfiesAll(ws, r[i])
    ensures forall k :: lo <= k < hi && k in rows && SatisfiesAll(ws, rows[k]) ==> rows[k] in r
    ensures forall i, j :: 0 <= i < j < |r| ==> r[i].id < r[j].id
    decreases hi - lo
  {
    if lo >= hi then []
    else (if lo in rows && SatisfiesAll(ws, rows[lo]) then [rows[lo]] else []) + Scan(rows, ws, lo + 1, hi)
  }

  /** Total quantity the ledger records as bought of sweet `id`. */
  function Purchased(ledger: seq<PurchaseRecord>, id: int): int
  {
    if ledger == [] then 0
    else (if ledger[0].sweetId == id then ledger[0].quantity else 0) + Purchased(ledger[1..], id)
  }

  lemma {:induction false} PurchasedConcat(a: seq<PurchaseRecord>, b: seq<PurchaseRecord>, id: int)
    ensures Purchased(a + b, id) == Purchased(a, id) + Purchased(b, id)
  {
    if a != [] {
      assert (a + b)[1..] == a[1..] + b;
      PurchasedConcat(a[1..], b, id);
    } else {
      assert a + b == b;
    }
  }

  /** The stock check of the purchase handler: the row exists and holds at least `qty`. */
  predicate CanBuy(rows: map<int, Sweet>, id: int, qty: int)
  {
    id in rows && rows[id].quantity >= qty
  }

  /** The table after `qty` of sweet `id` is sold. */
  function Bought(rows: map<int, Sweet>, id: int, qty: int): map<int, Sweet>
    requires id in rows
  {
    rows[id := rows[id].(quantity := rows[id].quantity - qty)]
  }

  /** No row holds a negative stock. */
  predicate StockNonNegative(rows: map<int, Sweet>)
  {
    forall k :: k in rows ==> rows[k].quantity >= 0
  }

  /** A purchase that passes the stock check leaves no stock negative that was not before. */
  lemma BoughtKeepsStockNonNegative(rows: map<int, Sweet>, id: int, qty: int)
    requires CanBuy(rows, id, qty) && StockNonNegative(rows)
    ensures StockNonNegative(Bought(rows, id, qty))
    ensures Bought(rows, id, qty).Keys == rows.Keys
    ensures forall k :: k in rows && k != id ==> Bought(rows, id, qty)[k] == rows[k]
  {
  }

  const NotFound := "Sweet not found"
  const Insufficient := "Insufficient stock"

  /**
   * The message of a refused purchase of sweet `id` from the table `rows`: `protect`'s
   * refusal first, then "not found", then "insufficient stock".
   */
  function PurchaseRefusal(auth: Gate, rows: map<int, Sweet>, id: int): string
  {
    if auth.Reject? then auth.message else if id !in rows then NotFound else Insufficient
  }

  /** The `sweets` and `purchase_history` tables. */
  class Catalog {
    var sweets: map<int, Sweet>
    var ledger: seq<PurchaseRecord>
    /** The id the next inserted row receives (SQLite autoincrement). */
    var nextId: int

    ghost predicate Valid()
      reads this
    {
      1 <= nextId && Keyed(sweets) && forall k :: k in sweets ==> 1 <= k < nextId
    }

    constructor ()
      ensures Valid() && sweets == map[] && ledger == [] && nextId == 1
    {
      sweets := map[];
      ledger := [];
      nextId := 1;
    }

    /**
     * GET /search: every row the filters select, none other, in ascending id order;
     * reads the tables and changes nothing.
     */
    function Search(f: Filter): (r: seq<Sweet>)
      reads this
      requires Valid()
      ensures forall k :: k in sweets ==> (sweets[k] in r <==> SatisfiesAll(BuildQuery(f), sweets[k]))
      ensures forall i :: 0 <= i < |r| ==> r[i].id in sweets && sweets[r[i].id] == r[i]
      ensures forall i, j :: 0 <= i < j < |r| ==> r[i].id < r[j].id
    {
      Scan(sweets, BuildQuery(f), 1, nextId)
    }

    /** POST /: any authenticated caller inserts the row under a fresh id; 201 with the stored row. */
    method Create(auth: Gate, fields: SweetFields) returns (r: Reply<Sweet>)
      requires Valid()
      modifies this
      ensures Valid() && ledger == old(ledger)
      ensures auth.Reject? ==>
        r == Fail(auth.status, auth.message) && sweets == old(sweets) && nextId == old(nextId)
      ensures auth.Next? ==>
        && old(nextId) !in old(sweets)
        && r == Ok(201, Stored(old(nextId), fields))
        && sweets == old(sweets)[old(nextId) := Stored(old(nextId), fields)]
        && nextId == old(nextId) + 1
    {
      if auth.Reject? {
        return Fail(auth.status, auth.message);
      }
      var id := nextId;
      sweets := sweets[id := Stored(id, fields)];
      nextId := nextId + 1;
      r := Ok(201, sweets[id]);
    }

    /**
     * PUT /:id: the payload's `id` is dropped, so the row keeps its id; 404 when no row has
     * the id; otherwise the supplied columns of that one row change.
     */
    method Update(auth: Gate, id: int, payload: Patch) returns (r: Reply<Sweet>)
      requires Valid()
      modifies this
      ensures Valid() && ledger == old(ledger) && nextId == old(nextId)
      ensures auth.Reject? ==> r == Fail(auth.status, auth.message) && sweets == old(sweets)
      ensures auth.Next? && id !in old(sweets) ==> r == Fail(404, NotFound) && sweets == old(sweets)
      ensures auth.Next? && id in old(sweets) ==>
        var row := Merge(old(sweets)[id], WithoutId(payload));
        && row.id == id
        && sweets == old(sweets)[id := row]
        && r == Ok(200, row)
    {
      if auth.Reject? {
        return Fail(auth.status, auth.message);
      }
      var p := WithoutId(payload);
      if id !in sweets {
        return Fail(404, NotFound);
      }
      var row := Merge(sweets[id], p);
      sweets := sweets[id := row];
      r := Ok(200, row);
    }

    /**
     * DELETE /:id (protect, admin): a non-admin gets 403 and a missing id 404, with the
     * table unchanged; otherwise the row is gone and the reply is 204. Ledger rows that
     * refer to it are kept.
     */
    method Delete(auth: Gate, id: int) returns (r: Reply<()>)
      requires Valid()
      modifies this
      ensures Valid() && ledger == old(ledger) && nextId == old(nextId)
      ensures ThenAdmin(auth).Reject? ==>
        r == Fail(ThenAdmin(auth).status, ThenAdmin(auth).message) && sweets == old(sweets)
      ensures ThenAdmin(auth).Next? && id !in old(sweets) ==> r == Fail(404, NotFound) && sweets == old(sweets)
      ensures ThenAdmin(auth).Next? && id in old(sweets) ==> r == Ok(204, ()) && sweets == old(sweets) - {id}
    {
      var g := ThenAdmin(auth);
      if g.Reject? {
        return Fail(g.status, g.message);
      }
      if id !in sweets {
        return Fail(404, NotFound);
      }
      sweets := sweets - {id};
      r := Ok(204, ());
    }

    /**
     * POST /:id/purchase: quantity `Number(q) || 1`; 404 for a missing sweet and 400 when
     * the stock is below the quantity, both without any change; otherwise the stock drops by
     * exactly the quantity and exactly one ledger row `(caller, id, qty, now)` is appended.
     * Stock plus recorded purchases is the same afterwards for every sweet.
     */
    method Purchase(auth: Gate, id: int, quantity: Option<int>, now: int) returns (r: Reply<Sweet>)
      requires Valid()
      modifies this
      ensures Valid() && nextId == old(nextId)
      ensures
        var qty := QuantityOr(quantity, 1);
        if auth.Reject? then
          r == Fail(auth.status, auth.message) && sweets == old(sweets) && ledger == old(ledger)
        else if id !in old(sweets) then
          r == Fail(404, NotFound) && sweets == old(sweets) && ledger == old(ledger)
        else if !CanBuy(old(sweets), id, qty) then
          r == Fail(400, Insufficient) && sweets == old(sweets) && ledger == old(ledger)
        else
          && sweets == Bought(old(sweets), id, qty)
          && ledger == old(ledger) + [PurchaseRecord(auth.user.id, id, qty, now)]
          && r == Ok(200, sweets[id])
      ensures sweets.Keys == old(sweets).Keys
      ensures forall k :: k in sweets ==>
        sweets[k].quantity + Purchased(ledger, k) == old(sweets)[k].quantity + Purchased(old(ledger), k)
      ensures StockNonNegative(old(sweets)) ==> StockNonNegative(sweets)
    {
      var qty := QuantityOr(quantity, 1);
      if auth.Reject? {
        return Fail(auth.status, auth.message);
      }
      if id !in sweets {
        return Fail(404, NotFound);
      }
      var sweet := sweets[id];
      if sweet.quantity < qty {
        return Fail(400, Insufficient);
      }
      var row := PurchaseRecord(auth.user.id, id, qty, now);
      forall k | k in sweets
        ensures Purchased(ledger + [row], k) == Purchased(ledger, k) + (if k == id then qty else 0)
      {
        PurchasedConcat(ledger, [row], k);
      }
      sweets := sweets[id := sweet.(quantity := sweet.quantity - qty)];
      ledger := ledger + [row];
      r := Ok(200, sweets[id]);
    }

    /**
     * POST /:id/restock (protect, admin): quantity `Number(q) || 10`; a non-admin gets 403
     * and a missing sweet 404, without change; otherwise the stock rises by the quantity,
     * with no upper bound and no ledger row.
     */
    method Restock(auth: Gate, id: int, quantity: Option<int>) returns (r: Reply<Sweet>)
      requires Valid()
      modifies this
      ensures Valid() && ledger == old(ledger) && nextId == old(nextId)
      ensures
        var qty := QuantityOr(quantity, 10);
        var g := ThenAdmin(auth);
        if g.Reject? then
          r == Fail(g.status, g.message) && sweets == old(sweets)
        else if id !in old(sweets) then
          r == Fail(404, NotFound) && sweets == old(sweets)
        else
          && sweets == old(sweets)[id := old(sweets)[id].(quantity := old(sweets)[id].quantity + qty)]
          && r == Ok(200, sweets[id])
    {
      var qty := QuantityOr(quantity, 10);
      var g := ThenAdmin(auth);
      if g.Reject? {
        return Fail(g.status, g.message);
      }
      if id !in sweets {
        return Fail(404, NotFound);
      }
      var sweet := sweets[id];
      sweets := sweets[id := sweet.(quantity := sweet.quantity + qty)];
      r := Ok(200, sweets[id]);
    }
  }
}
