/**
 The cart handlers (src/controllers/cart.controller.js) and the cart's
 `calculateTotals` (src/models/Cart.js). A cart is a list of items; adding an
 event already in the cart merges into its item. No cart operation touches the
 seat counters: the seat check compares against `availableSeats` only.
 */
module Carts {
  import opened Records
  import opened Ledger

  /** The first index at or after `from` whose item is for `eventId` (the `findIndex` of addItemToCart). */
  function FindEventFrom(items: seq<CartItem>, eventId: Id, from: nat): (r: Option<nat>)
    requires from <= |items|
    ensures r.Some? ==> from <= r.value < |items| && items[r.value].eventId == eventId
    ensures r.Some? ==> forall j :: from <= j < r.value ==> items[j].eventId != eventId
    ensures r.None? ==> forall j :: from <= j < |items| ==> items[j].eventId != eventId
    decreases |items| - from
  {
    if from == |items| then None
    else if items[from].eventId == eventId then Some(from)
    else FindEventFrom(items, eventId, from + 1)
  }

  /** The first index whose item has id `itemId` (the subdocument lookup `items.id(itemId)`). */
  function FindIdFrom(items: seq<CartItem>, itemId: Id, from: nat): (r: Option<nat>)
    requires from <= |items|
    ensures r.Some? ==> from <= r.value < |items| && items[r.value].id == itemId
    ensures r.None? ==> forall j :: from <= j < |items| ==> items[j].id != itemId
    decreases |items| - from
  {
    if from == |items| then None
    else if items[from].id == itemId then Some(from)
    else FindIdFrom(items, itemId, from + 1)
  }

  /** Every item with id other than `itemId`, in order (the `$pull` of removeCartItem). */
  function WithoutId(items: seq<CartItem>, itemId: Id): (r: seq<CartItem>)
    ensures forall x :: x in r <==> x in items && x.id != itemId
    ensures |r| <= |items|
    ensures (forall j :: 0 <= j < |items| ==> items[j].id != itemId) ==> r == items
  {
    if items == [] then []
    else if items[0].id == itemId then WithoutId(items[1..], itemId)
    else [items[0]] + WithoutId(items[1..], itemId)
  }

  /** Tickets of `eventId` asked for by the items: the meaning of a cart, event by event. */
  function QuantityFor(items: seq<CartItem>, eventId: Id): int {
    if items == [] then 0
    else (if items[0].eventId == eventId then items[0].quantity else 0) + QuantityFor(items[1..], eventId)
  }

  /** At most one item per event, which the add path's merge maintains. */
  predicate OneItemPerEvent(items: seq<CartItem>) {
    forall i, j :: 0 <= i < j < |items| ==> items[i].eventId != items[j].eventId
  }

  /** The user's cart, or the empty one the add path creates when there is none. */
  function CartOf(s: Store, user: UserId): Cart {
    if user in s.carts then s.carts[user] else Cart([])
  }

  // --------------------------------------------------------------- handlers

  /**
   Add `qty` tickets of `eventId` to the user's cart. The event must exist and be
   approved (else 404) and have at least `qty` free seats (else 400); the check
   compares against the requested quantity, not the merged one. Only an
   appended item takes a fresh id; a merge mints none.
   */
  function AddItemToCart(s: Store, user: UserId, eventId: Id, qty: int): (r: Reply)
    ensures r.outcome == Ok <==>
      qty >= 1 && eventId in s.events && s.events[eventId].status == Approved
      && s.events[eventId].availableSeats >= qty
    ensures r.outcome == NotFound <==> qty >= 1 && !(eventId in s.events && s.events[eventId].status == Approved)
    ensures r.outcome == BadRequest <==>
      qty < 1 || (eventId in s.events && s.events[eventId].status == Approved && s.events[eventId].availableSeats < qty)
    ensures r.outcome != Ok ==> r.store == s
    ensures r.outcome == Ok ==>
      && user in r.store.carts
      && QuantityFor(r.store.carts[user].items, eventId) == QuantityFor(CartOf(s, user).items, eventId) + qty
      && (forall e :: e != eventId ==>
            QuantityFor(r.store.carts[user].items, e) == QuantityFor(CartOf(s, user).items, e))
    ensures r.outcome == Ok ==>
      && var items := CartOf(s, user).items;
         var items' := r.store.carts[user].items;
         && (FindEventFrom(items, eventId, 0).Some? ==>
               && |items'| == |items|
               && forall j :: 0 <= j < |items'| ==> items'[j].id == items[j].id && items'[j].eventId == items[j].eventId)
         && (FindEventFrom(items, eventId, 0).None? ==> items' == items + [CartItem(s.nextId, eventId, qty)])
    ensures r.store.carts.Keys == if r.outcome == Ok then s.carts.Keys + {user} else s.carts.Keys
    ensures forall u :: u in s.carts && u != user ==> r.store.carts[u] == s.carts[u]
    ensures r.store.events == s.events && r.store.reservations == s.reservations && r.store.payments == s.payments
    ensures r.store.nextId ==
      if r.outcome == Ok && FindEventFrom(CartOf(s, user).items, eventId, 0).None? then s.nextId + 1 else s.nextId
  {
    if qty < 1 then
      Reply(s, BadRequest)
    else if !(eventId in s.events && s.events[eventId].status == Approved) then
      Reply(s, NotFound)
    else if s.events[eventId].availableSeats < qty then
      Reply(s, BadRequest)
    else
      var items := Added(CartOf(s, user).items, eventId, qty, s.nextId);
      var appended := FindEventFrom(CartOf(s, user).items, eventId, 0).None?;
      Reply(s.(carts := s.carts[user := Cart(items)], nextId := if appended then s.nextId + 1 else s.nextId), Ok)
  }

  /**
   The items after adding `qty` tickets of `eventId`: merged into the event's item
   when there is one, otherwise appended as a new item with the fresh id `newId`.
   */
  function Added(items: seq<CartItem>, eventId: Id, qty: int, newId: Id): (r: seq<CartItem>)
    ensures QuantityFor(r, eventId) == QuantityFor(items, eventId) + qty
    ensures forall e :: e != eventId ==> QuantityFor(r, e) == QuantityFor(items, e)
    ensures FindEventFrom(items, eventId, 0).Some? ==>
      && |r| == |items|
      && (forall j :: 0 <= j < |r| ==> r[j].id == items[j].id && r[j].eventId == items[j].eventId)
      && (forall j :: 0 <= j < |r| && j != FindEventFrom(items, eventId, 0).value ==> r[j] == items[j])
    ensures FindEventFrom(items, eventId, 0).None? ==> r == items + [CartItem(newId, eventId, qty)]
  {
    match FindEventFrom(items, eventId, 0)
    case Some(i) =>
      var items' := items[i := items[i].(quantity := items[i].quantity + qty)];
      QuantityUpdate(items, i, items'[i]);
      items'
    case None =>
      QuantityAppend(items, [CartItem(newId, eventId, qty)]);
      QuantitySingle(CartItem(newId, eventId, qty));
      items + [CartItem(newId, eventId, qty)]
  }

  /** The update path's seat check: the item's event still exists and has at least `qty` free seats. */
  predicate SeatsFor(s: Store, eventId: Id, qty: int) {
    eventId in s.events && s.events[eventId].availableSeats >= qty
  }

  /**
   Set the quantity of item `itemId` (replacing, not adding). 404 when the user
   has no cart or no such item; 400 when the item's event is gone or has fewer
   free seats than `qty`. The event's status is not checked.
   */
  function UpdateCartItem(s: Store, user: UserId, itemId: Id, qty: int): (r: Reply)
    ensures r.outcome == NotFound <==>
      qty >= 1 && (user !in s.carts || FindIdFrom(s.carts[user].items, itemId, 0).None?)
    ensures r.outcome == Ok <==>
      && qty >= 1 && user in s.carts && FindIdFrom(s.carts[user].items, itemId, 0).Some?
      && SeatsFor(s, s.carts[user].items[FindIdFrom(s.carts[user].items, itemId, 0).value].eventId, qty)
    ensures r.outcome == BadRequest <==>
      || qty < 1
      || (&& user in s.carts && FindIdFrom(s.carts[user].items, itemId, 0).Some?
          && !SeatsFor(s, s.carts[user].items[FindIdFrom(s.carts[user].items, itemId, 0).value].eventId, qty))
    ensures r.outcome != ServerError
    ensures r.outcome != Ok ==> r.store == s
    ensures r.outcome == Ok ==>
      && user in s.carts && user in r.store.carts
      && var items := s.carts[user].items;
         var items' := r.store.carts[user].items;
         && |items'| == |items|
         && exists i :: 0 <= i < |items| && items[i].id == itemId
              && items'[i] == items[i].(quantity := qty)
              && SeatsFor(s, items[i].eventId, qty)
              && (forall j :: 0 <= j < |items| && j != i ==> items'[j] == items[j])
    ensures r.store.carts.Keys == s.carts.Keys
    ensures forall u :: u in s.carts && u != user ==> r.store.carts[u] == s.carts[u]
    ensures r.store.events == s.events && r.store.reservations == s.reservations
    ensures r.store.payments == s.payments && r.store.nextId == s.nextId
  {
    if qty < 1 then
      Reply(s, BadRequest)
    else if user !in s.carts then
      Reply(s, NotFound)
    else
      var items := s.carts[user].items;
      match FindIdFrom(items, itemId, 0)
      case None => Reply(s, NotFound)
      case Some(i) =>
        var item := items[i];
        if !SeatsFor(s, item.eventId, qty) then
          Reply(s, BadRequest)
        else
          Reply(s.(carts := s.carts[user := Cart(items[i := item.(quantity := qty)])]), Ok)
  }

  /** Drop the item with id `itemId`; a missing item is still a success, a missing cart is 404. */
  function RemoveCartItem(s: Store, user: UserId, itemId: Id): (r: Reply)
    ensures r.outcome == NotFound <==> user !in s.carts
    ensures r.outcome != NotFound ==> r.outcome == Ok
    ensures r.outcome == NotFound ==> r.store == s
    ensures user in s.carts ==>
      && user in r.store.carts
      && forall x :: x in r.store.carts[user].items <==> x in s.carts[user].items && x.id != itemId
    ensures r.store.carts.Keys == s.carts.Keys
    ensures forall u :: u in s.carts && u != user ==> r.store.carts[u] == s.carts[u]
    ensures r.store.events == s.events && r.store.reservations == s.reservations
    ensures r.store.payments == s.payments && r.store.nextId == s.nextId
  {
    if user !in s.carts then
      Reply(s, NotFound)
    else
      Reply(s.(carts := s.carts[user := Cart(WithoutId(s.carts[user].items, itemId))]), Ok)
  }

  /** Empty the user's cart; without a cart nothing is created and the answer is still success. */
  function ClearCart(s: Store, user: UserId): (r: Reply)
    ensures r.outcome == Ok
    ensures r.store.carts.Keys == s.carts.Keys
    ensures user in s.carts ==> r.store.carts[user].items == []
    ensures forall u :: u in s.carts && u != user ==> r.store.carts[u] == s.carts[u]
    ensures r.store.events == s.events && r.store.reservations == s.reservations
    ensures r.store.payments == s.payments && r.store.nextId == s.nextId
  {
    if user in s.carts then Reply(s.(carts := s.carts[user := Cart([])]), Ok)
    else Reply(s, Ok)
  }

  /**
   `calculateTotals`: quantity times price over the items whose event still
   exists. A cart none of whose events exists any more totals nothing.
   */
  function Subtotal(items: seq<CartItem>, events: map<Id, Event>): (r: int)
    ensures (forall i :: 0 <= i < |items| ==> items[i].eventId !in events) ==> r == 0
  {
    if items == [] then 0
    else (if items[0].eventId in events then items[0].quantity * events[items[0].eventId].price else 0)
         + Subtotal(items[1..], events)
  }

  // ------------------------------------------------------------------ lemmas

  /**
   The `$pull` keeps or drops each item on its own: it distributes over
   concatenation, so it keeps the order of the items it keeps.
   */
  lemma {:induction false} WithoutIdAppend(a: seq<CartItem>, b: seq<CartItem>, itemId: Id)
    ensures WithoutId(a + b, itemId) == WithoutId(a, itemId) + WithoutId(b, itemId)
    ensures forall x :: WithoutId([x], itemId) == if x.id == itemId then [] else [x]
    decreases |a|
  {
    forall x
      ensures WithoutId([x], itemId) == if x.id == itemId then [] else [x]
    {
      assert [x][1..] == [];
    }
    if a == [] {
      assert a + b == b;
    } else {
      assert (a + b)[0] == a[0];
      assert (a + b)[1..] == a[1..] + b;
      WithoutIdAppend(a[1..], b, itemId);
      if a[0].id == itemId {
        assert WithoutId(a + b, itemId) == WithoutId(a[1..] + b, itemId);
      } else {
        assert WithoutId(a + b, itemId) == [a[0]] + WithoutId(a[1..] + b, itemId);
        assert WithoutId(a, itemId) == [a[0]] + WithoutId(a[1..], itemId);
      }
    }
  }

  /** A one-item list asks for that item's quantity of its own event and nothing of any other. */
  lemma QuantitySingle(x: CartItem)
    ensures forall e :: QuantityFor([x], e) == if x.eventId == e then x.quantity else 0
  {
    assert [x][1..] == [];
  }

  /** The quantity measure of a concatenation is the sum of the parts. */
  lemma {:induction false} QuantityAppend(a: seq<CartItem>, b: seq<CartItem>)
    ensures forall e :: QuantityFor(a + b, e) == QuantityFor(a, e) + QuantityFor(b, e)
    decreases |a|
  {
    if a == [] {
      assert a + b == b;
    } else {
      assert (a + b)[1..] == a[1..] + b;
      QuantityAppend(a[1..], b);
    }
  }

  /** Replacing item `i` changes the quantity measure by the difference of the two items. */
  lemma {:induction false} QuantityUpdate(items: seq<CartItem>, i: nat, x: CartItem)
    requires i < |items|
    ensures forall e ::
      QuantityFor(items[i := x], e)
      == QuantityFor(items, e) - (if items[i].eventId == e then items[i].quantity else 0)
         + (if x.eventId == e then x.quantity else 0)
    decreases i
  {
    if i > 0 {
      assert items[i := x][1..] == items[1..][i - 1 := x];
      QuantityUpdate(items[1..], i - 1, x);
    } else {
      assert items[i := x][1..] == items[1..];
    }
  }

  /** The subtotal of a concatenation is the sum of the subtotals. */
  lemma {:induction false} SubtotalAppend(a: seq<CartItem>, b: seq<CartItem>, events: map<Id, Event>)
    ensures Subtotal(a + b, events) == Subtotal(a, events) + Subtotal(b, events)
    decreases |a|
  {
    if a == [] {
      assert a + b == b;
    } else {
      assert (a + b)[1..] == a[1..] + b;
      SubtotalAppend(a[1..], b, events);
    }
  }

  /** Replacing item `i` changes the subtotal by the difference of the two items' line totals. */
  lemma {:induction false} SubtotalUpdate(items: seq<CartItem>, i: nat, x: CartItem, events: map<Id, Event>)
    requires i < |items|
    ensures Subtotal(items[i := x], events)
      == Subtotal(items, events) - Subtotal([items[i]], events) + Subtotal([x], events)
    decreases i
  {
    if i > 0 {
      assert items[i := x][1..] == items[1..][i - 1 := x];
      SubtotalUpdate(items[1..], i - 1, x, events);
    } else {
      assert items[i := x][1..] == items[1..];
    }
  }

  /** Items whose event no longer resolves contribute nothing to the subtotal. */
  lemma {:induction false} SubtotalSkipsMissing(items: seq<CartItem>, x: CartItem, events: map<Id, Event>)
    requires x.eventId !in events
    ensures Subtotal(items + [x], events) == Subtotal(items, events)
  {
    SubtotalAppend(items, [x], events);
  }

  /** With prices and quantities within the schema, the subtotal is never negative. */
  lemma {:induction false} SubtotalNonNegative(items: seq<CartItem>, events: map<Id, Event>)
    requires forall i :: 0 <= i < |items| ==> items[i].quantity >= 1
    requires forall k :: k in events ==> events[k].price >= 0
    ensures Subtotal(items, events) >= 0
    decreases |items|
  {
    if items != [] {
      SubtotalNonNegative(items[1..], events);
    }
  }

  /** Raising the quantity of item `i` by `qty` raises the subtotal by `qty` times its event's price. */
  lemma MergeSubtotal(items: seq<CartItem>, i: nat, qty: int, events: map<Id, Event>)
    requires i < |items| && items[i].eventId in events
    ensures Subtotal(items[i := items[i].(quantity := items[i].quantity + qty)], events)
      == Subtotal(items, events) + qty * events[items[i].eventId].price
  {
    var price := events[items[i].eventId].price;
    var x := items[i].(quantity := items[i].quantity + qty);
    SubtotalUpdate(items, i, x, events);
    assert Subtotal([items[i]], events) == items[i].quantity * price;
    assert Subtotal([x], events) == (items[i].quantity + qty) * price;
    assert (items[i].quantity + qty) * price == items[i].quantity * price + qty * price;
  }

  /** Merging or appending `qty` tickets raises the subtotal by exactly `qty` times the event's price. */
  lemma AddedSubtotal(items: seq<CartItem>, eventId: Id, qty: int, newId: Id, events: map<Id, Event>)
    requires eventId in events
    ensures Subtotal(Added(items, eventId, qty, newId), events)
      == Subtotal(items, events) + qty * events[eventId].price
  {
    match FindEventFrom(items, eventId, 0)
    case Some(i) =>
      assert Added(items, eventId, qty, newId) == items[i := items[i].(quantity := items[i].quantity + qty)];
      MergeSubtotal(items, i, qty, events);
    case None =>
      assert Added(items, eventId, qty, newId) == items + [CartItem(newId, eventId, qty)];
      SubtotalAppend(items, [CartItem(newId, eventId, qty)], events);
  }

  /** A successful add raises the cart's subtotal by exactly `qty` times the event's price. */
  lemma AddItemSubtotal(s: Store, user: UserId, eventId: Id, qty: int)
    requires AddItemToCart(s, user, eventId, qty).outcome == Ok
    ensures var r := AddItemToCart(s, user, eventId, qty);
      Subtotal(r.store.carts[user].items, s.events)
      == Subtotal(CartOf(s, user).items, s.events) + qty * s.events[eventId].price
  {
    AddedSubtotal(CartOf(s, user).items, eventId, qty, s.nextId, s.events);
  }

  /** Adding merges into an existing item or appends one for an event the cart lacks: events stay distinct. */
  lemma AddItemKeepsOneItemPerEvent(s: Store, user: UserId, eventId: Id, qty: int)
    requires user in s.carts ==> OneItemPerEvent(s.carts[user].items)
    ensures var r := AddItemToCart(s, user, eventId, qty);
      user in r.store.carts ==> OneItemPerEvent(r.store.carts[user].items)
  {
    var r := AddItemToCart(s, user, eventId, qty);
    var items := CartOf(s, user).items;
    if r.outcome == Ok {
      var items' := r.store.carts[user].items;
      match FindEventFrom(items, eventId, 0)
      case Some(i) =>
        assert items' == items[i := items[i].(quantity := items[i].quantity + qty)];
        forall a, b | 0 <= a < b < |items'|
          ensures items'[a].eventId != items'[b].eventId
        {
          assert items'[a].eventId == items[a].eventId && items'[b].eventId == items[b].eventId;
        }
      case None =>
        assert items' == items + [CartItem(s.nextId, eventId, qty)];
        forall a, b | 0 <= a < b < |items'|
          ensures items'[a].eventId != items'[b].eventId
        {
          if b == |items| {
            assert items'[a] == items[a] && items'[b].eventId == eventId;
          } else {
            assert items'[a] == items[a] && items'[b] == items[b];
          }
        }
    }
  }

  /** Changing, removing and clearing items keep at most one item per event in the user's cart. */
  lemma CartEditsKeepOneItemPerEvent(s: Store, user: UserId, itemId: Id, qty: int)
    requires user in s.carts ==> OneItemPerEvent(s.carts[user].items)
    ensures var r := UpdateCartItem(s, user, itemId, qty);
      user in r.store.carts ==> OneItemPerEvent(r.store.carts[user].items)
    ensures var r := RemoveCartItem(s, user, itemId);
      user in r.store.carts ==> OneItemPerEvent(r.store.carts[user].items)
    ensures var r := ClearCart(s, user);
      user in r.store.carts ==> OneItemPerEvent(r.store.carts[user].items)
  {
    if user in s.carts {
      var items := s.carts[user].items;
      WithoutIdKeepsOneItemPerEvent(items, itemId);
      var r := UpdateCartItem(s, user, itemId, qty);
      if r.outcome == Ok {
        var items' := r.store.carts[user].items;
        forall a, b | 0 <= a < b < |items'|
          ensures items'[a].eventId != items'[b].eventId
        {
          assert items'[a].eventId == items[a].eventId && items'[b].eventId == items[b].eventId;
        }
      }
    }
  }

  /** Removing items keeps the rest's events distinct. */
  lemma {:induction false} WithoutIdKeepsOneItemPerEvent(items: seq<CartItem>, itemId: Id)
    requires OneItemPerEvent(items)
    ensures OneItemPerEvent(WithoutId(items, itemId))
    decreases |items|
  {
    if items != [] {
      var rest := items[1..];
      assert OneItemPerEvent(rest) by {
        forall i, j | 0 <= i < j < |rest|
          ensures rest[i].eventId != rest[j].eventId
        {
          assert rest[i] == items[i + 1] && rest[j] == items[j + 1];
        }
      }
      WithoutIdKeepsOneItemPerEvent(rest, itemId);
      var tail := WithoutId(rest, itemId);
      if items[0].id != itemId {
        forall j | 0 <= j < |tail|
          ensures items[0].eventId != tail[j].eventId
        {
          assert tail[j] in rest;
        }
      }
    }
  }

  /** Installing a valid cart whose ids are all allocated keeps the store valid. */
  lemma ReplaceCart(s: Store, user: UserId, c: Cart, n: Id)
    requires Allocated(s) && SchemaValid(s)
    requires s.nextId <= n
    requires ValidCart(c) && forall i :: 0 <= i < |c.items| ==> c.items[i].id < n
    ensures var s' := s.(carts := s.carts[user := c], nextId := n); Allocated(s') && SchemaValid(s')
  {
  }

  /** Adding to a cart keeps every cart within its schema and every item id allocated. */
  lemma AddItemSchemaValid(s: Store, user: UserId, eventId: Id, qty: int)
    requires Allocated(s) && SchemaValid(s)
    ensures var s' := AddItemToCart(s, user, eventId, qty).store; Allocated(s') && SchemaValid(s')
  {
    var r := AddItemToCart(s, user, eventId, qty);
    if r.outcome == Ok {
      var items := CartOf(s, user).items;
      assert ValidCart(Cart(items));
      assert forall i :: 0 <= i < |items| ==> items[i].id < s.nextId;
      AddedValid(items, eventId, qty, s.nextId);
      AddedIds(items, eventId, qty, s.nextId);
      ReplaceCart(s, user, Cart(Added(items, eventId, qty, s.nextId)), r.store.nextId);
    }
  }

  /** Adding a positive quantity keeps a cart valid. */
  lemma AddedValid(items: seq<CartItem>, eventId: Id, qty: int, newId: Id)
    requires qty >= 1
    requires ValidCart(Cart(items)) && forall j :: 0 <= j < |items| ==> items[j].id < newId
    ensures ValidCart(Cart(Added(items, eventId, qty, newId)))
  {
    match FindEventFrom(items, eventId, 0)
    case Some(i) =>
      var items' := items[i := items[i].(quantity := items[i].quantity + qty)];
      assert forall j :: 0 <= j < |items| ==> items'[j].id == items[j].id;
    case None =>
      var items' := items + [CartItem(newId, eventId, qty)];
      assert forall j :: 0 <= j < |items| ==> items'[j] == items[j];
  }

  /** Adding uses no id but the fresh one. */
  lemma AddedIds(items: seq<CartItem>, eventId: Id, qty: int, newId: Id)
    requires forall j :: 0 <= j < |items| ==> items[j].id < newId
    ensures var items' := Added(items, eventId, qty, newId);
      var n := if FindEventFrom(items, eventId, 0).None? then newId + 1 else newId;
      forall j :: 0 <= j < |items'| ==> items'[j].id < n
  {
    match FindEventFrom(items, eventId, 0)
    case Some(i) =>
      var items' := items[i := items[i].(quantity := items[i].quantity + qty)];
      assert forall j :: 0 <= j < |items| ==> items'[j].id == items[j].id;
    case None =>
      var items' := items + [CartItem(newId, eventId, qty)];
      assert forall j :: 0 <= j < |items| ==> items'[j] == items[j];
  }

  /** Setting an item's quantity keeps every cart within its schema. */
  lemma UpdateItemSchemaValid(s: Store, user: UserId, itemId: Id, qty: int)
    requires Allocated(s) && SchemaValid(s)
    ensures var s' := UpdateCartItem(s, user, itemId, qty).store; Allocated(s') && SchemaValid(s')
  {
    var r := UpdateCartItem(s, user, itemId, qty);
    if r.outcome == Ok {
      assert ValidCart(s.carts[user]);
      assert forall i :: 0 <= i < |s.carts[user].items| ==> s.carts[user].items[i].id < s.nextId;
      ReplaceCart(s, user, r.store.carts[user], s.nextId);
      assert r.store == s.(carts := s.carts[user := r.store.carts[user]], nextId := s.nextId);
    }
  }

  /** Removing an item or clearing the cart keeps every cart within its schema. */
  lemma RemoveAndClearSchemaValid(s: Store, user: UserId, itemId: Id)
    requires Allocated(s) && SchemaValid(s)
    ensures var s' := RemoveCartItem(s, user, itemId).store; Allocated(s') && SchemaValid(s')
    ensures var s' := ClearCart(s, user).store; Allocated(s') && SchemaValid(s')
  {
    if user in s.carts {
      var items := s.carts[user].items;
      assert ValidCart(s.carts[user]);
      WithoutIdValid(items, itemId);
      var rest := WithoutId(items, itemId);
      assert forall i :: 0 <= i < |items| ==> items[i].id < s.nextId;
      forall i | 0 <= i < |rest|
        ensures rest[i].id < s.nextId
      {
        assert rest[i] in items;
      }
      ReplaceCart(s, user, Cart(rest), s.nextId);
      assert RemoveCartItem(s, user, itemId).store == s.(carts := s.carts[user := Cart(rest)], nextId := s.nextId);
      ReplaceCart(s, user, Cart([]), s.nextId);
      assert ClearCart(s, user).store == s.(carts := s.carts[user := Cart([])], nextId := s.nextId);
    }
  }

  /** Removing items keeps quantities at least 1 and ids distinct. */
  lemma WithoutIdValid(items: seq<CartItem>, itemId: Id)
    requires ValidCart(Cart(items))
    ensures ValidCart(Cart(WithoutId(items, itemId)))
  {
    var r := WithoutId(items, itemId);
    forall i | 0 <= i < |r|
      ensures r[i].quantity >= 1
    {
      assert r[i] in items;
    }
    assert DistinctIds(items);
    WithoutIdDistinct(items, itemId);
  }

  predicate DistinctIds(items: seq<CartItem>) {
    forall i, j :: 0 <= i < j < |items| ==> items[i].id != items[j].id
  }

  /** Removing items from a list with distinct ids leaves a list with distinct ids. */
  lemma {:induction false} WithoutIdDistinct(items: seq<CartItem>, itemId: Id)
    requires DistinctIds(items)
    ensures DistinctIds(WithoutId(items, itemId))
    decreases |items|
  {
    if items != [] {
      var rest := items[1..];
      assert DistinctIds(rest) by {
        forall i, j | 0 <= i < j < |rest|
          ensures rest[i].id != rest[j].id
        {
          assert rest[i] == items[i + 1] && rest[j] == items[j + 1];
        }
      }
      WithoutIdDistinct(rest, itemId);
      var tail := WithoutId(rest, itemId);
      if items[0].id != itemId {
        forall j | 0 <= j < |tail|
          ensures items[0].id != tail[j].id
        {
          assert tail[j] in rest;
        }
      }
    }
  }

  /** Installing a cart whose item ids are all allocated keeps the id discipline. */
  lemma ReplaceCartAllocated(s: Store, user: UserId, c: Cart, n: Id)
    requires Allocated(s) && s.nextId <= n
    requires forall i :: 0 <= i < |c.items| ==> c.items[i].id < n
    ensures Allocated(s.(carts := s.carts[user := c], nextId := n))
  {
  }

  /** Adding to a cart hands out an item id only from the allocator. */
  lemma AddItemAllocated(s: Store, user: UserId, eventId: Id, qty: int)
    requires Allocated(s)
    ensures Allocated(AddItemToCart(s, user, eventId, qty).store)
  {
    var items := CartOf(s, user).items;
    assert forall i :: 0 <= i < |items| ==> items[i].id < s.nextId;
    if AddItemToCart(s, user, eventId, qty).outcome == Ok {
      AddedIds(items, eventId, qty, s.nextId);
      ReplaceCartAllocated(s, user, Cart(Added(items, eventId, qty, s.nextId)), AddItemToCart(s, user, eventId, qty).store.nextId);
    }
  }

  /** Changing, removing and clearing items hand out no id. */
  lemma CartEditsAllocated(s: Store, user: UserId, itemId: Id, qty: int)
    requires Allocated(s)
    ensures Allocated(UpdateCartItem(s, user, itemId, qty).store)
    ensures Allocated(RemoveCartItem(s, user, itemId).store)
    ensures Allocated(ClearCart(s, user).store)
  {
    if user in s.carts {
      var items := s.carts[user].items;
      assert forall i :: 0 <= i < |items| ==> items[i].id < s.nextId;
      var u := UpdateCartItem(s, user, itemId, qty);
      if u.outcome == Ok {
        ReplaceCartAllocated(s, user, u.store.carts[user], s.nextId);
        assert u.store == s.(carts := s.carts[user := u.store.carts[user]], nextId := s.nextId);
      }
      var rest := WithoutId(items, itemId);
      forall i | 0 <= i < |rest|
        ensures rest[i].id < s.nextId
      {
        assert rest[i] in items;
      }
      ReplaceCartAllocated(s, user, Cart(rest), s.nextId);
      assert RemoveCartItem(s, user, itemId).store == s.(carts := s.carts[user := Cart(rest)], nextId := s.nextId);
      ReplaceCartAllocated(s, user, Cart([]), s.nextId);
      assert ClearCart(s, user).store == s.(carts := s.carts[user := Cart([])], nextId := s.nextId);
    }
  }

  /** No cart operation moves a seat: every one of them keeps the books. */
  lemma CartOpsKeepBooks(s: Store, user: UserId, eventId: Id, itemId: Id, qty: int)
    requires Allocated(s)
    ensures KeepsBooks(s, AddItemToCart(s, user, eventId, qty).store)
    ensures KeepsBooks(s, UpdateCartItem(s, user, itemId, qty).store)
    ensures KeepsBooks(s, RemoveCartItem(s, user, itemId).store)
    ensures KeepsBooks(s, ClearCart(s, user).store)
  {
    BooksFrame(s, AddItemToCart(s, user, eventId, qty).store);
    BooksFrame(s, UpdateCartItem(s, user, itemId, qty).store);
    BooksFrame(s, RemoveCartItem(s, user, itemId).store);
    BooksFrame(s, ClearCart(s, user).store);
  }
}
