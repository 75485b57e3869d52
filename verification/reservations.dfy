/**
 The reservation handlers (src/controllers/reservation.controller.js): booking N
 tickets with one conditional decrement of the event's free-seat counter, and
 cancelling a booking, which hands the seats back once.
 */
module Reservations {
  import opened Records
  import opened Ledger

  /** The condition of the store's conditional update: the event exists, is approved and has the seats. */
  predicate Bookable(s: Store, eventId: Id, qty: int) {
    eventId in s.events && s.events[eventId].status == Approved && s.events[eventId].availableSeats >= qty
  }

  /**
   Book `qty` tickets of `eventId` for `user`. The validator's `ticketQuantity >= 1`
   and the conditional decrement both answer 400; a reservation the schema would
   refuse (a negative price stored by an unvalidated event edit) fails with 500 and
   the transaction undoes the decrement.
   */
  function CreateReservation(s: Store, user: UserId, eventId: Id, qty: int): (r: Reply)
    ensures r.outcome == Ok <==> qty >= 1 && Bookable(s, eventId, qty) && s.events[eventId].price * qty >= 0
    ensures r.outcome == BadRequest <==> qty < 1 || !Bookable(s, eventId, qty)
    ensures r.outcome == ServerError <==> qty >= 1 && Bookable(s, eventId, qty) && s.events[eventId].price * qty < 0
    ensures r.outcome != Ok ==> r.store == s
    ensures r.outcome == Ok ==>
      && r.store.events.Keys == s.events.Keys
      && r.store.events[eventId].availableSeats == s.events[eventId].availableSeats - qty >= 0
      && r.store.events[eventId] == s.events[eventId].(availableSeats := r.store.events[eventId].availableSeats)
      && (forall e :: e in s.events && e != eventId ==> r.store.events[e] == s.events[e])
    ensures r.outcome == Ok ==>
      && r.store.nextId == s.nextId + 1
      && r.store.reservations.Keys == s.reservations.Keys + {s.nextId}
      && r.store.reservations[s.nextId]
         == Reservation(eventId, user, qty, s.events[eventId].price * qty, Reserved, None)
      && (forall k :: k in s.reservations && k != s.nextId ==> r.store.reservations[k] == s.reservations[k])
    ensures r.store.payments == s.payments && r.store.carts == s.carts
  {
    if qty < 1 then
      Reply(s, BadRequest)
    else if !Bookable(s, eventId, qty) then
      Reply(s, BadRequest)
    else
      var ev := s.events[eventId];
      var totalPrice := ev.price * qty;
      if totalPrice < 0 then
        Reply(s, ServerError)
      else
        var booking := Reservation(eventId, user, qty, totalPrice, Reserved, None);
        Reply(s.(events := s.events[eventId := ev.(availableSeats := ev.availableSeats - qty)],
                 reservations := s.reservations[s.nextId := booking],
                 nextId := s.nextId + 1),
              Ok)
  }

  /** The lookup `{ _id, userId }`: the reservation exists and belongs to the requester. */
  predicate OwnsReservation(s: Store, user: UserId, id: Id) {
    id in s.reservations && s.reservations[id].userId == user
  }

  /**
   Cancel reservation `id` on behalf of `user`. An already cancelled reservation
   answers success without touching anything; otherwise its seats go back to
   the event's counter, unclamped, and only if the event still exists (an update
   of a deleted event matches nothing).
   */
  function CancelReservation(s: Store, user: UserId, id: Id): (r: Reply)
    ensures r.outcome == NotFound <==> !OwnsReservation(s, user, id)
    ensures r.outcome != NotFound ==> r.outcome == Ok
    ensures r.outcome == NotFound ==> r.store == s
    ensures OwnsReservation(s, user, id) && s.reservations[id].status == Cancelled ==> r.store == s
    ensures OwnsReservation(s, user, id) && s.reservations[id].status == Reserved ==>
      var res := s.reservations[id];
      && r.store.reservations == s.reservations[id := res.(status := Cancelled)]
      && r.store.events.Keys == s.events.Keys
      && (forall e :: e in s.events && e != res.eventId ==> r.store.events[e] == s.events[e])
      && (res.eventId in s.events ==>
            r.store.events[res.eventId]
            == s.events[res.eventId].(availableSeats := s.events[res.eventId].availableSeats + res.ticketQuantity))
    ensures r.store.payments == s.payments && r.store.carts == s.carts && r.store.nextId == s.nextId
  {
    if !OwnsReservation(s, user, id) then
      Reply(s, NotFound)
    else
      var res := s.reservations[id];
      if res.status == Cancelled then
        Reply(s, Ok)
      else
        var events :=
          if res.eventId in s.events then
            var ev := s.events[res.eventId];
            s.events[res.eventId := ev.(availableSeats := ev.availableSeats + res.ticketQuantity)]
          else s.events;
        Reply(s.(events := events, reservations := s.reservations[id := res.(status := Cancelled)]), Ok)
  }

  // ------------------------------------------------------------------ lemmas

  /** Booking hands out only the allocator's next id, for a reservation naming an existing event. */
  lemma CreateAllocated(s: Store, user: UserId, eventId: Id, qty: int)
    requires Allocated(s)
    ensures Allocated(CreateReservation(s, user, eventId, qty).store)
  {
  }

  /** Cancelling allocates nothing. */
  lemma CancelAllocated(s: Store, user: UserId, id: Id)
    requires Allocated(s)
    ensures Allocated(CancelReservation(s, user, id).store)
  {
  }

  /** A booking keeps the books: the seats the counter loses are the seats the new reservation holds. */
  lemma CreateKeepsBooks(s: Store, user: UserId, eventId: Id, qty: int)
    requires Allocated(s)
    ensures KeepsBooks(s, CreateReservation(s, user, eventId, qty).store)
  {
    var r := CreateReservation(s, user, eventId, qty);
    if r.outcome == Ok {
      var s' := r.store;
      var n := s.nextId;
      forall e | e in s'.events
        ensures Unaccounted(s', e) == Unaccounted(s, e)
      {
        HeldBeyond(s.reservations, n, s'.reservations[n], e, n);
        assert SeatsHeld(s', e) == SeatsHeld(s, e) + HeldBy(s'.reservations, n, e);
      }
    }
  }

  /** A cancellation keeps the books: the seats it returns are the seats the reservation held. */
  lemma CancelKeepsBooks(s: Store, user: UserId, id: Id)
    requires Allocated(s)
    ensures KeepsBooks(s, CancelReservation(s, user, id).store)
  {
    var r := CancelReservation(s, user, id);
    if OwnsReservation(s, user, id) && s.reservations[id].status == Reserved {
      var s' := r.store;
      var res := s.reservations[id];
      forall e | e in s'.events
        ensures Unaccounted(s', e) == Unaccounted(s, e)
      {
        HeldUpdate(s.reservations, id, res.(status := Cancelled), e, s.nextId);
      }
    }
  }

  /** Booking keeps every record within its schema: the conditional decrement never drives the counter negative. */
  lemma CreateSchemaValid(s: Store, user: UserId, eventId: Id, qty: int)
    requires SchemaValid(s)
    ensures SchemaValid(CreateReservation(s, user, eventId, qty).store)
  {
    if eventId in s.events {
      assert ValidEvent(s.events[eventId]);
    }
  }

  /** Cancelling keeps every record within its schema. */
  lemma CancelSchemaValid(s: Store, user: UserId, id: Id)
    requires SchemaValid(s)
    ensures SchemaValid(CancelReservation(s, user, id).store)
  {
    if id in s.reservations {
      var res := s.reservations[id];
      assert ValidReservation(res);
      if res.eventId in s.events {
        assert ValidEvent(s.events[res.eventId]);
      }
    }
  }

  /** Cancelling twice is cancelling once: the second call answers the same and returns no further seats. */
  lemma CancelIdempotent(s: Store, user: UserId, id: Id)
    ensures var once := CancelReservation(s, user, id);
      CancelReservation(once.store, user, id) == once
  {
  }

  /** Booking then cancelling the new reservation gives every event back its free seats. */
  lemma CreateThenCancelRestoresSeats(s: Store, user: UserId, eventId: Id, qty: int)
    requires CreateReservation(s, user, eventId, qty).outcome == Ok
    ensures var booked := CreateReservation(s, user, eventId, qty).store;
      var cancelled := CancelReservation(booked, user, s.nextId);
      && cancelled.outcome == Ok
      && cancelled.store.events == s.events
      && cancelled.store.reservations[s.nextId].status == Cancelled
  {
    var booked := CreateReservation(s, user, eventId, qty).store;
    var ev := s.events[eventId];
    assert booked.events[eventId].(availableSeats := booked.events[eventId].availableSeats + qty) == ev;
  }

  /**
   Two requests for more than half of an event's seats cannot both be served:
   after the first succeeds the second finds too few seats and changes nothing.
   */
  lemma NoDoubleBooking(s: Store, u1: UserId, u2: UserId, eventId: Id, qty: int)
    requires CreateReservation(s, u1, eventId, qty).outcome == Ok
    requires 2 * qty > s.events[eventId].availableSeats
    ensures var first := CreateReservation(s, u1, eventId, qty).store;
      var second := CreateReservation(first, u2, eventId, qty);
      && second.outcome == BadRequest
      && second.store == first
      && first.events[eventId].availableSeats == s.events[eventId].availableSeats - qty
  {
  }

  /**
   The release is not clamped to `totalSeats`: once an edit has shrunk the total
   under seats still held, cancelling pushes the free-seat counter past the total.
   */
  lemma ReleaseNotClamped()
    ensures exists s: Store, user: UserId, id: Id ::
      && SchemaValid(s) && OwnsReservation(s, user, id)
      && var ev := s.reservations[id].eventId;
         && ev in s.events
         && s.events[ev].availableSeats <= s.events[ev].totalSeats
         && CancelReservation(s, user, id).outcome == Ok
         && CancelReservation(s, user, id).store.events[ev].availableSeats > s.events[ev].totalSeats
  {
    var ev := Event(7, "Gig", Music, 0, 10, 3, 3, Approved);
    var s := Store(map[0 := ev], map[1 := Reservation(0, 1, 2, 20, Reserved, None)], map[], map[], 2);
    assert CancelReservation(s, 1, 1).store.events[0].availableSeats == 5;
  }
}
