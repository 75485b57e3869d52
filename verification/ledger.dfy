/**
 Seat accounting: how many seats the `reserved` reservations hold against an
 event, and the conservation invariant that ties that number to the event's
 `availableSeats` and `totalSeats` counters.
 */
module Ledger {
  import opened Records

  /** Seats reservation `k` holds against event `e` (zero unless it exists, is for `e` and is reserved). */
  function HeldBy(rs: map<Id, Reservation>, k: Id, e: Id): int {
    if k in rs && rs[k].eventId == e && rs[k].status == Reserved then rs[k].ticketQuantity else 0
  }

  /** Seats held against event `e` by the reservations whose ids are below `n`. */
  function Held(rs: map<Id, Reservation>, e: Id, n: nat): int
    decreases n
  {
    if n == 0 then 0 else Held(rs, e, n - 1) + HeldBy(rs, n - 1, e)
  }

  /** Seats held against `e` by all reservations of the store. */
  function SeatsHeld(s: Store, e: Id): int {
    Held(s.reservations, e, s.nextId)
  }

  /** For every event, free seats plus seats held by reserved reservations make up the total. */
  predicate Conserved(s: Store) {
    forall e :: e in s.events ==> s.events[e].availableSeats + SeatsHeld(s, e) == s.events[e].totalSeats
  }

  /** Seats of event `e` that are neither free nor held by a reserved reservation. */
  function Unaccounted(s: Store, e: Id): int
    requires e in s.events
  {
    s.events[e].totalSeats - s.events[e].availableSeats - SeatsHeld(s, e)
  }

  // ------------------------------------------------------------------ lemmas

  /** Replacing the reservation at an id below `n` changes the sum by exactly that id's contribution. */
  lemma {:induction false} HeldUpdate(rs: map<Id, Reservation>, k: Id, r: Reservation, e: Id, n: nat)
    requires k < n
    ensures Held(rs[k := r], e, n) == Held(rs, e, n) - HeldBy(rs, k, e) + HeldBy(rs[k := r], k, e)
    decreases n
  {
    if k < n - 1 {
      HeldUpdate(rs, k, r, e, n - 1);
      assert HeldBy(rs[k := r], n - 1, e) == HeldBy(rs, n - 1, e);
    } else {
      HeldBeyond(rs, k, r, e, n - 1);
    }
  }

  /** Writing at an id at or above `n` does not change the sum below `n`. */
  lemma {:induction false} HeldBeyond(rs: map<Id, Reservation>, k: Id, r: Reservation, e: Id, n: nat)
    requires n <= k
    ensures Held(rs[k := r], e, n) == Held(rs, e, n)
    decreases n
  {
    if n > 0 {
      HeldBeyond(rs, k, r, e, n - 1);
      assert HeldBy(rs[k := r], n - 1, e) == HeldBy(rs, n - 1, e);
    }
  }

  /** Two reservation maps that hold the same seats id by id hold the same total. */
  lemma {:induction false} HeldSame(rs: map<Id, Reservation>, rs': map<Id, Reservation>, e: Id, n: nat)
    requires forall k: Id :: k < n ==> HeldBy(rs, k, e) == HeldBy(rs', k, e)
    ensures Held(rs, e, n) == Held(rs', e, n)
    decreases n
  {
    if n > 0 {
      HeldSame(rs, rs', e, n - 1);
    }
  }

  /** When no reservation below `n` holds seats against `e`, the sum is zero. */
  lemma {:induction false} HeldNone(rs: map<Id, Reservation>, e: Id, n: nat)
    requires forall k: Id :: k < n ==> HeldBy(rs, k, e) == 0
    ensures Held(rs, e, n) == 0
    decreases n
  {
    if n > 0 {
      HeldNone(rs, e, n - 1);
    }
  }

  /** Past the largest id in use, extending the range adds nothing. */
  lemma {:induction false} HeldExtend(rs: map<Id, Reservation>, e: Id, n: nat, m: nat)
    requires forall k :: k in rs ==> k < n
    requires n <= m
    ensures Held(rs, e, m) == Held(rs, e, n)
    decreases m
  {
    if n < m {
      HeldExtend(rs, e, n, m - 1);
      assert m - 1 !in rs;
    }
  }

  /** Nothing is held against an id the allocator has not handed out yet. */
  lemma FreshHoldsNothing(s: Store, e: Id)
    requires Allocated(s) && e >= s.nextId
    ensures SeatsHeld(s, e) == 0
  {
    forall k: Id | k < s.nextId
      ensures HeldBy(s.reservations, k, e) == 0
    {
    }
    HeldNone(s.reservations, e, s.nextId);
  }

  /** With schema-valid reservations, the seats held are never negative. */
  lemma {:induction false} HeldNonNegative(rs: map<Id, Reservation>, e: Id, n: nat)
    requires forall k :: k in rs ==> ValidReservation(rs[k])
    ensures Held(rs, e, n) >= 0
    decreases n
  {
    if n > 0 {
      HeldNonNegative(rs, e, n - 1);
    }
  }

  /** The fields the seat bounds rest on: free-seat counters are non-negative and reservations within their schema. */
  predicate SeatFieldsValid(s: Store) {
    && (forall e :: e in s.events ==> s.events[e].availableSeats >= 0)
    && (forall k :: k in s.reservations ==> ValidReservation(s.reservations[k]))
  }

  /**
   The books of a store are covered when, besides those fields being valid, no
   event has more seats free or held than its total. Conservation is the case
   where nothing is left unaccounted.
   */
  predicate Covered(s: Store) {
    && SeatFieldsValid(s)
    && (forall e :: e in s.events ==> Unaccounted(s, e) >= 0)
  }

  /** A conserved store within the schema keeps its books. */
  lemma ConservedCovered(s: Store)
    requires Conserved(s) && SchemaValid(s)
    ensures Covered(s)
  {
    forall e | e in s.events
      ensures s.events[e].availableSeats >= 0
    {
      assert ValidEvent(s.events[e]);
    }
  }

  /**
   No oversell: when the books hold, the reserved reservations of an event never
   hold more seats than the event has, and the free-seat counter never exceeds
   the total.
   */
  lemma NoOversell(s: Store, e: Id)
    requires Covered(s)
    requires e in s.events
    ensures 0 <= SeatsHeld(s, e) <= s.events[e].totalSeats
    ensures s.events[e].availableSeats <= s.events[e].totalSeats
  {
    HeldNonNegative(s.reservations, e, s.nextId);
  }

  /**
   A step keeps the books when every event it leaves in place has as many seats
   unaccounted as before and every event it creates starts with none.
   */
  predicate KeepsBooks(s: Store, s': Store) {
    forall e :: e in s'.events ==> Unaccounted(s', e) == if e in s.events then Unaccounted(s, e) else 0
  }

  /** A step that keeps the books and the seat fields valid keeps them covered. */
  lemma BooksCover(s: Store, s': Store)
    requires Covered(s) && KeepsBooks(s, s') && SeatFieldsValid(s')
    ensures Covered(s')
  {
    forall e | e in s'.events
      ensures Unaccounted(s', e) >= 0
    {
    }
  }

  /** A step that keeps the books keeps conservation. */
  lemma BooksConserve(s: Store, s': Store)
    requires Conserved(s) && KeepsBooks(s, s')
    ensures Conserved(s')
  {
    forall e | e in s'.events
      ensures s'.events[e].availableSeats + SeatsHeld(s', e) == s'.events[e].totalSeats
    {
      assert Unaccounted(s', e) == 0;
    }
  }

  /**
   A step that leaves the reservations alone, does not shrink the allocator,
   adds no event and keeps every remaining event's two seat counters keeps the
   books. Most handlers are such steps.
   */
  lemma BooksFrame(s: Store, s': Store)
    requires Allocated(s)
    requires s'.reservations == s.reservations && s.nextId <= s'.nextId
    requires forall e :: e in s'.events ==>
      && e in s.events
      && s'.events[e].availableSeats == s.events[e].availableSeats
      && s'.events[e].totalSeats == s.events[e].totalSeats
    ensures KeepsBooks(s, s')
  {
    forall e | e in s'.events
      ensures Unaccounted(s', e) == Unaccounted(s, e)
    {
      HeldExtend(s.reservations, e, s.nextId, s'.nextId);
    }
  }
}
