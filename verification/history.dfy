/**
 * GET /profile/history: the caller's ledger rows joined with the sweets table, newest
 * first. A pure query over the two tables.
 */
module History {
  import opened Http
  import opened Domain
  import opened Guard
  import opened Inventory

  /** One reply row: the ledger's sweet id, quantity and date with the sweet's name, image and price. */
  datatype HistoryRow = HistoryRow(
    id: int,
    purchasedQuantity: int,
    purchaseDate: int,
    name: string,
    image: string,
    price: int)

  function RowOf(p: PurchaseRecord, s: Sweet): HistoryRow
  {
    HistoryRow(p.sweetId, p.quantity, p.date, s.name, s.image, s.price)
  }

  /** The inner join restricted to `user_id = userId`, in ledger order. */
  function Joined(ledger: seq<PurchaseRecord>, sweets: map<int, Sweet>, userId: int): seq<HistoryRow>
  {
    if ledger == [] then []
    else
      var p := ledger[0];
      (if p.userId == userId && p.sweetId in sweets then [RowOf(p, sweets[p.sweetId])] else [])
      + Joined(ledger[1..], sweets, userId)
  }

  /** A ledger row of `userId` whose sweet still exists yields `row`. */
  ghost predicate Yields(ledger: seq<PurchaseRecord>, sweets: map<int, Sweet>, userId: int, i: int, row: HistoryRow)
  {
    && 0 <= i < |ledger|
    && ledger[i].userId == userId
    && ledger[i].sweetId in sweets
    && row == RowOf(ledger[i], sweets[ledger[i].sweetId])
  }

  /** The join holds exactly the rows that some ledger row of the user with a surviving sweet yields. */
  lemma {:induction false} JoinedRows(ledger: seq<PurchaseRecord>, sweets: map<int, Sweet>, userId: int, row: HistoryRow)
    ensures row in Joined(ledger, sweets, userId) <==> exists i :: Yields(ledger, sweets, userId, i, row)
  {
    if ledger != [] {
      var p := ledger[0];
      var head := if p.userId == userId && p.sweetId in sweets then [RowOf(p, sweets[p.sweetId])] else [];
      assert Joined(ledger, sweets, userId) == head + Joined(ledger[1..], sweets, userId);
      assert Yields(ledger, sweets, userId, 0, row) <==> row in head;
      JoinedRows(ledger[1..], sweets, userId, row);
      if exists i :: Yields(ledger[1..], sweets, userId, i, row) {
        var i :| Yields(ledger[1..], sweets, userId, i, row);
        assert Yields(ledger, sweets, userId, i + 1, row);
      }
      if exists i :: Yields(ledger, sweets, userId, i, row) {
        var i :| Yields(ledger, sweets, userId, i, row);
        if i > 0 {
          assert Yields(ledger[1..], sweets, userId, i - 1, row);
        }
      }
    }
  }

  /** `orderBy('purchase_date', 'desc')`. */
  predicate NewestFirst(rows: seq<HistoryRow>)
  {
    forall i, j :: 0 <= i < j < |rows| ==> rows[i].purchaseDate >= rows[j].purchaseDate
  }

  function InsertByDate(x: HistoryRow, rows: seq<HistoryRow>): (r: seq<HistoryRow>)
    ensures multiset(r) == multiset(rows) + multiset{x}
  {
    if rows == [] then [x]
    else if x.purchaseDate >= rows[0].purchaseDate then [x] + rows
    else
      assert rows == [rows[0]] + rows[1..];
      [rows[0]] + InsertByDate(x, rows[1..])
  }

  /** No row dated after `d`. */
  predicate NotAfter(rows: seq<HistoryRow>, d: int)
  {
    forall k :: 0 <= k < |rows| ==> rows[k].purchaseDate <= d
  }

  lemma {:induction false} InsertNotAfter(x: HistoryRow, rows: seq<HistoryRow>, d: int)
    requires NotAfter(rows, d) && x.purchaseDate <= d
    ensures NotAfter(InsertByDate(x, rows), d)
  {
    if rows != [] && x.purchaseDate < rows[0].purchaseDate {
      InsertNotAfter(x, rows[1..], d);
    }
  }

  lemma {:induction false} InsertSorted(x: HistoryRow, rows: seq<HistoryRow>)
    requires NewestFirst(rows)
    ensures NewestFirst(InsertByDate(x, rows))
  {
    if rows != [] && x.purchaseDate < rows[0].purchaseDate {
      var rest := InsertByDate(x, rows[1..]);
      InsertSorted(x, rows[1..]);
      InsertNotAfter(x, rows[1..], rows[0].purchaseDate);
      var r := [rows[0]] + rest;
      assert r == InsertByDate(x, rows);
      forall i, j | 0 <= i < j < |r| ensures r[i].purchaseDate >= r[j].purchaseDate {
        assert r[j] == rest[j - 1];
        if i > 0 {
          assert r[i] == rest[i - 1];
        }
      }
    }
  }

  /** Sorts newest first; rows with the same date keep their ledger order. */
  function SortNewestFirst(rows: seq<HistoryRow>): (r: seq<HistoryRow>)
    ensures NewestFirst(r)
    ensures multiset(r) == multiset(rows)
  {
    if rows == [] then []
    else
      assert rows == [rows[0]] + rows[1..];
      InsertSorted(rows[0], SortNewestFirst(rows[1..]));
      InsertByDate(rows[0], SortNewestFirst(rows[1..]))
  }

  /** The reply body: the user's joined rows, newest first. */
  function History(ledger: seq<PurchaseRecord>, sweets: map<int, Sweet>, userId: int): seq<HistoryRow>
  {
    SortNewestFirst(Joined(ledger, sweets, userId))
  }

  /**
   * The history is newest first and holds exactly the rows yielded by the user's own
   * ledger rows whose sweet still exists: no other user's purchase, and no purchase of a
   * deleted sweet.
   */
  lemma HistoryContents(ledger: seq<PurchaseRecord>, sweets: map<int, Sweet>, userId: int, row: HistoryRow)
    ensures NewestFirst(History(ledger, sweets, userId))
    ensures |History(ledger, sweets, userId)| == |Joined(ledger, sweets, userId)|
    ensures row in History(ledger, sweets, userId) <==> exists i :: Yields(ledger, sweets, userId, i, row)
  {
    var h := History(ledger, sweets, userId);
    var j := Joined(ledger, sweets, userId);
    assert |h| == |multiset(h)| == |multiset(j)| == |j|;
    assert row in h <==> row in multiset(h);
    JoinedRows(ledger, sweets, userId, row);
  }

  /** A deleted sweet disappears from every history, although its ledger rows remain. */
  lemma DeletedSweetOmitted(ledger: seq<PurchaseRecord>, sweets: map<int, Sweet>, userId: int, id: int)
    requires id !in sweets
    ensures forall row :: row in History(ledger, sweets, userId) ==> row.id != id
  {
    forall row | row in History(ledger, sweets, userId) ensures row.id != id {
      HistoryContents(ledger, sweets, userId, row);
    }
  }

  /** The route: reachable only through `protect`, and the user is the token's subject. */
  function HistoryRoute(auth: Gate, ledger: seq<PurchaseRecord>, sweets: map<int, Sweet>): (r: Reply<seq<HistoryRow>>)
    ensures auth.Reject? ==> r == Fail(auth.status, auth.message)
    ensures auth.Next? ==> r.Ok? && r.status == 200 && NewestFirst(r.body)
    ensures auth.Next? ==> forall row :: row in r.body <==> exists i :: Yields(ledger, sweets, auth.user.id, i, row)
    ensures auth.Next? ==> |r.body| == |Joined(ledger, sweets, auth.user.id)|
  {
    if auth.Reject? then Fail(auth.status, auth.message)
    else
      var rows := History(ledger, sweets, auth.user.id);
      assert forall row :: row in rows <==> exists i :: Yields(ledger, sweets, auth.user.id, i, row) by {
        forall row ensures row in rows <==> exists i :: Yields(ledger, sweets, auth.user.id, i, row) {
          HistoryContents(ledger, sweets, auth.user.id, row);
        }
      }
      assert |rows| == |multiset(rows)| == |multiset(Joined(ledger, sweets, auth.user.id))|;
      Ok(200, rows)
  }
}
