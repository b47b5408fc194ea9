/**
 * The client cart (`CartContext`): a list of lines, at most one per sweet id, mirrored
 * into local storage after every change that saves it.
 */
module ShoppingCart {
  import opened Wrappers
  import opened Text
  import opened Domain
  import opened Messages
  import opened ById

  /** A cart line: the sweet's id, name, price and image as seen when added, and the amount in the cart. */
  datatype CartLine = CartLine(id: int, name: string, price: int, image: string, quantity: int)

  function LineFor(s: Sweet, quantity: int): CartLine
  {
    CartLine(s.id, s.name, s.price, s.image, quantity)
  }

  function LineId(line: CartLine): int
  {
    line.id
  }

  /** At most one line per sweet id. */
  predicate DistinctIds(items: seq<CartLine>)
  {
    forall i, j :: 0 <= i < j < |items| ==> items[i].id != items[j].id
  }

  /** `items.find(item => item.id === id)`, as the index of the first line with that id. */
  function Find(items: seq<CartLine>, id: int): (r: Option<nat>)
    ensures r.None? <==> forall i :: 0 <= i < |items| ==> items[i].id != id
    ensures r.Some? ==> r.value < |items| && items[r.value].id == id
    ensures r.Some? ==> forall i :: 0 <= i < r.value ==> items[i].id != id
  {
    if items == [] then None
    else if items[0].id == id then Some(0)
    else match Find(items[1..], id)
      case None => None
      case Some(k) => Some(k + 1)
  }

  /** The `map` that gives every line with `id` the quantity `q`. */
  function SetQuantity(items: seq<CartLine>, id: int, q: int): (r: seq<CartLine>)
    ensures |r| == |items|
  {
    if items == [] then []
    else [if items[0].id == id then items[0].(quantity := q) else items[0]] + SetQuantity(items[1..], id, q)
  }

  /** Lines with another id are untouched; lines with `id` change in their quantity only. */
  lemma {:induction false} SetQuantityLines(items: seq<CartLine>, id: int, q: int)
    ensures var r := SetQuantity(items, id, q);
      && (forall i :: 0 <= i < |items| && items[i].id != id ==> r[i] == items[i])
      && (forall i :: 0 <= i < |items| && items[i].id == id ==> r[i] == items[i].(quantity := q))
  {
    if items != [] {
      SetQuantityLines(items[1..], id, q);
      var r := SetQuantity(items, id, q);
      assert r[1..] == SetQuantity(items[1..], id, q);
      forall i | 1 <= i < |items| ensures r[i] == r[1..][i - 1] && items[i] == items[1..][i - 1] {
      }
    }
  }

  /** A line's price times its quantity, the cart table's per-line total. */
  function LineTotal(line: CartLine): int
  {
    line.price * line.quantity
  }

  /** `reduce((total, item) => total + item.price * item.quantity, 0)`: the sum of the line totals. */
  function TotalPrice(items: seq<CartLine>): int
  {
    if items == [] then 0 else LineTotal(items[0]) + TotalPrice(items[1..])
  }

  /** `reduce((total, item) => total + item.quantity, 0)`: the cart's total weight. */
  function TotalItems(items: seq<CartLine>): int
  {
    if items == [] then 0 else items[0].quantity + TotalItems(items[1..])
  }

  /** Both sums add up over a split of the cart, so the order of summing does not matter. */
  lemma {:induction false} TotalsConcat(a: seq<CartLine>, b: seq<CartLine>)
    ensures TotalPrice(a + b) == TotalPrice(a) + TotalPrice(b)
    ensures TotalItems(a + b) == TotalItems(a) + TotalItems(b)
  {
    if a == [] {
      assert a + b == b;
    } else {
      assert (a + b)[0] == a[0];
      assert (a + b)[1..] == a[1..] + b;
      TotalsConcat(a[1..], b);
    }
  }

  lemma {:induction false} SetQuantityAbsent(items: seq<CartLine>, id: int, q: int)
    requires forall i :: 0 <= i < |items| ==> items[i].id != id
    ensures SetQuantity(items, id, q) == items
  {
    if items != [] {
      SetQuantityAbsent(items[1..], id, q);
    }
  }

  /** Setting the quantity of the one line with `id` moves the total weight by that line's change. */
  lemma {:induction false} SetQuantityItems(items: seq<CartLine>, id: int, q: int, i: int)
    requires DistinctIds(items) && 0 <= i < |items| && items[i].id == id
    ensures TotalItems(SetQuantity(items, id, q)) == TotalItems(items) + (q - items[i].quantity)
  {
    var r := SetQuantity(items, id, q);
    assert r[1..] == SetQuantity(items[1..], id, q);
    if i == 0 {
      SetQuantityAbsent(items[1..], id, q);
    } else {
      SetQuantityItems(items[1..], id, q, i - 1);
    }
  }

  /** Setting the quantity of the one line with `id` moves the total price by that line's price times the change. */
  lemma {:induction false} SetQuantityPrice(items: seq<CartLine>, id: int, q: int, i: int)
    requires DistinctIds(items) && 0 <= i < |items| && items[i].id == id
    ensures TotalPrice(SetQuantity(items, id, q)) == TotalPrice(items) + items[i].price * (q - items[i].quantity)
  {
    var r := SetQuantity(items, id, q);
    assert r[1..] == SetQuantity(items[1..], id, q);
    if i == 0 {
      SetQuantityAbsent(items[1..], id, q);
      assert LineTotal(r[0]) == LineTotal(items[0]) + items[0].price * (q - items[0].quantity);
    } else {
      SetQuantityPrice(items[1..], id, q, i - 1);
    }
  }

  /** The message `addToCart` shows, by case, with the numbers and name it quotes. */
  datatype AddNote =
    | OverStockExisting(quantity: int, left: int, name: string)
    | AddedMore(quantity: int, name: string)
    | OverStockNew(quantity: int, stock: int, name: string)
    | AddedNew(quantity: int, name: string)
  {
    /** The add went through. */
    predicate Succeeded()
    {
      AddedMore? || AddedNew?
    }

    /** The text shown, a success exactly for the two adds that went through. */
    function Render(): (r: Notice)
      ensures r.kind == Success <==> Succeeded()
    {
      match this
      case OverStockExisting(q, left, name) =>
        Notice("Cannot add " + Show(q) + " kg. Only " + Show(left) + " kg of " + name + " left in stock!", Error)
      case AddedMore(q, name) =>
        Notice("Added " + Show(q) + " box more of " + name + " to cart.", Success)
      case OverStockNew(q, stock, name) =>
        Notice("Cannot add " + Show(q) + " kg. Only " + Show(stock) + " kg of " + name + " is available.", Error)
      case AddedNew(q, name) =>
        Notice("Added " + Show(q) + " box of " + name + " to cart.", Success)
    }
  }

  /** What `addToCart` leaves behind: the new list and the message shown, if any. */
  datatype Outcome = Outcome(items: seq<CartLine>, note: Option<AddNote>)
  {
    function Shown(): Option<Notice>
    {
      if note.Some? then Some(note.value.Render()) else None
    }
  }

  /**
   * `addToCart(sweet, quantity)` on the list `items`, against the stock `sweet.quantity`
   * the client saw: merge into the existing line, or append a new one at the end.
   */
  function Added(items: seq<CartLine>, sweet: Sweet, quantity: int): (o: Outcome)
    ensures o.note.None? <==> quantity <= 0
    ensures |items| <= |o.items| <= |items| + 1
  {
    if quantity <= 0 then Outcome(items, None)
    else match Find(items, sweet.id)
      case Some(i) =>
        var total := items[i].quantity + quantity;
        if total > sweet.quantity then
          Outcome(items, Some(OverStockExisting(quantity, sweet.quantity - items[i].quantity, sweet.name)))
        else
          Outcome(SetQuantity(items, sweet.id, total), Some(AddedMore(quantity, sweet.name)))
      case None =>
        if quantity > sweet.quantity then
          Outcome(items, Some(OverStockNew(quantity, sweet.quantity, sweet.name)))
        else
          Outcome(items + [LineFor(sweet, quantity)], Some(AddedNew(quantity, sweet.name)))
  }

  /** An add that went through: the list was saved and a success message shown. */
  predicate Accepted(o: Outcome)
  {
    o.note.Some? && o.note.value.Succeeded()
  }

  /**
   * When `addToCart` goes through: a positive quantity that, added to the sweet's existing
   * line, stays within the stock the client saw, or a positive quantity within that stock
   * for a sweet not yet in the cart. Otherwise the list stays as it was, and a
   * non-positive quantity shows nothing either.
   */
  lemma AddedAccepts(items: seq<CartLine>, sweet: Sweet, quantity: int)
    requires DistinctIds(items)
    ensures var o := Added(items, sweet, quantity);
      && (quantity <= 0 ==> o == Outcome(items, None))
      && (!Accepted(o) ==> o.items == items)
      && (Accepted(o) <==>
           || (quantity > 0 && exists i :: 0 <= i < |items| && items[i].id == sweet.id && items[i].quantity + quantity <= sweet.quantity)
           || (0 < quantity <= sweet.quantity && forall i :: 0 <= i < |items| ==> items[i].id != sweet.id))
  {
    if quantity > 0 {
      match Find(items, sweet.id)
      case Some(i) =>
        forall j | 0 <= j < |items| && items[j].id == sweet.id ensures j == i {
        }
      case None =>
    }
  }

  /** An accepted add for a sweet already in the cart raises that line's quantity. */
  lemma AddedMerges(items: seq<CartLine>, sweet: Sweet, quantity: int, i: nat)
    requires Accepted(Added(items, sweet, quantity))
    requires Find(items, sweet.id) == Some(i)
    ensures Added(items, sweet, quantity).items == SetQuantity(items, sweet.id, items[i].quantity + quantity)
  {
  }

  /** An accepted add for a sweet not in the cart appends its line. */
  lemma AddedAppends(items: seq<CartLine>, sweet: Sweet, quantity: int)
    requires Accepted(Added(items, sweet, quantity))
    requires Find(items, sweet.id).None?
    ensures Added(items, sweet, quantity).items == items + [LineFor(sweet, quantity)]
  {
  }

  /** An accepted add keeps one line per id and raises the total weight by exactly `quantity`. */
  lemma AddedKeepsDistinct(items: seq<CartLine>, sweet: Sweet, quantity: int)
    requires DistinctIds(items)
    requires Accepted(Added(items, sweet, quantity))
    ensures DistinctIds(Added(items, sweet, quantity).items)
    ensures TotalItems(Added(items, sweet, quantity).items) == TotalItems(items) + quantity
  {
    var found := Find(items, sweet.id);
    if found.Some? {
      AddedMerges(items, sweet, quantity, found.value);
      var total := items[found.value].quantity + quantity;
      SetQuantityDistinct(items, sweet.id, total);
      SetQuantityItems(items, sweet.id, total, found.value);
    } else {
      AddedAppends(items, sweet, quantity);
      AppendDistinct(items, LineFor(sweet, quantity));
      TotalsConcat(items, [LineFor(sweet, quantity)]);
    }
  }

  lemma SetQuantityDistinct(items: seq<CartLine>, id: int, q: int)
    requires DistinctIds(items)
    ensures DistinctIds(SetQuantity(items, id, q))
  {
    var r := SetQuantity(items, id, q);
    SetQuantityLines(items, id, q);
    forall a, b | 0 <= a < b < |r| ensures r[a].id != r[b].id {
      assert r[a].id == items[a].id && r[b].id == items[b].id;
    }
  }

  lemma AppendDistinct(items: seq<CartLine>, line: CartLine)
    requires DistinctIds(items)
    requires forall i :: 0 <= i < |items| ==> items[i].id != line.id
    ensures DistinctIds(items + [line])
  {
    var r := items + [line];
    forall a, b | 0 <= a < b < |r| ensures r[a].id != r[b].id {
      assert r[a] == items[a];
    }
  }

  /**
   * An accepted add leaves the sweet's single line within the stock the client saw, and
   * keeps every other line as it was, in place.
   */
  lemma AddedWithinStock(items: seq<CartLine>, sweet: Sweet, quantity: int)
    requires DistinctIds(items)
    requires Accepted(Added(items, sweet, quantity))
    ensures var r := Added(items, sweet, quantity).items;
      && |r| >= |items|
      && (forall i :: 0 <= i < |r| && r[i].id == sweet.id ==> r[i].quantity <= sweet.quantity)
      && (forall i :: 0 <= i < |items| && items[i].id != sweet.id ==> r[i] == items[i])
  {
    var r := Added(items, sweet, quantity).items;
    match Find(items, sweet.id)
    case Some(i) =>
      SetQuantityLines(items, sweet.id, items[i].quantity + quantity);
      forall j | 0 <= j < |items| && items[j].id == sweet.id ensures j == i {
      }
    case None =>
  }

  /** The `ss_cart` entry of local storage, and the cart state kept beside it. */
  class Cart {
    var items: seq<CartLine>
    var stored: Option<seq<CartLine>>

    /** The persisted copy equals the in-memory list. */
    predicate Synced()
      reads this
    {
      stored == Some(items)
    }

    /** `getInitialCart`: the saved list, or empty when nothing (readable) is stored. */
    constructor (saved: Option<seq<CartLine>>)
      ensures items == saved.GetOr([]) && stored == saved
    {
      items := saved.GetOr([]);
      stored := saved;
    }

    /** `saveCart`: replace the list and write it to storage. */
    method Save(newItems: seq<CartLine>)
      modifies this
      ensures items == newItems && Synced()
    {
      items := newItems;
      stored := Some(newItems);
    }

    /**
     * `addToCart`: the list becomes the one `Added` describes, and is saved exactly when
     * the add went through; the message shown is the outcome's.
     */
    method AddToCart(sweet: Sweet, quantity: int) returns (notice: Option<Notice>)
      modifies this
      ensures items == Added(old(items), sweet, quantity).items
      ensures notice == Added(old(items), sweet, quantity).Shown()
      ensures Accepted(Added(old(items), sweet, quantity)) ==> Synced()
      ensures !Accepted(Added(old(items), sweet, quantity)) ==> stored == old(stored)
    {
      ghost var o := Added(items, sweet, quantity);
      if quantity <= 0 {
        return None;
      }
      var existing := Find(items, sweet.id);
      var note;
      if existing.Some? {
        var total := items[existing.value].quantity + quantity;
        if total > sweet.quantity {
          note := OverStockExisting(quantity, sweet.quantity - items[existing.value].quantity, sweet.name);
          assert o == Outcome(items, Some(note));
          return Some(note.Render());
        }
        var next := SetQuantity(items, sweet.id, total);
        note := AddedMore(quantity, sweet.name);
        assert o == Outcome(next, Some(note));
        Save(next);
      } else {
        if quantity > sweet.quantity {
          note := OverStockNew(quantity, sweet.quantity, sweet.name);
          assert o == Outcome(items, Some(note));
          return Some(note.Render());
        }
        var next := items + [LineFor(sweet, quantity)];
        note := AddedNew(quantity, sweet.name);
        assert o == Outcome(next, Some(note));
        Save(next);
      }
      notice := Some(note.Render());
    }

    method RemoveFromCart(id: int) returns (notice: Notice)
      modifies this
      ensures items == Without(old(items), LineId, id) && Synced()
      ensures forall i :: 0 <= i < |items| ==> items[i].id != id
      ensures DistinctIds(old(items)) ==> DistinctIds(items)
      ensures notice == Notice("Item removed from cart.", Error)
    {
      if DistinctIds(items) {
        assert DistinctKeys(items, LineId);
        WithoutDistinct(items, LineId, id);
      }
      WithoutMembers(items, LineId, id);
      Save(Without(items, LineId, id));
      forall i | 0 <= i < |items| ensures items[i].id != id {
        assert items[i] in items;
      }
      notice := Notice("Item removed from cart.", Error);
    }

    method ClearCart() returns (notice: Notice)
      modifies this
      ensures items == [] && Synced()
      ensures TotalItems(items) == 0 && TotalPrice(items) == 0
      ensures notice == Notice("Cart cleared.", Error)
    {
      Save([]);
      notice := Notice("Cart cleared.", Error);
    }

  }
}
