/**
 The scheduled past-event sweep (src/controllers/cleanupPastEvents.js): approved
 events whose date has passed are marked completed, and their still-reserved
 reservations are cancelled. The whole sweep runs in one transaction, which the
 model renders as one function from store to store. The sweep does not return
 the cancelled reservations' seats to the counters.
 */
module Cleanup {
  import opened Records
  import opened Ledger

  /** The events the sweep selects: approved, dated strictly before `now`. */
  predicate PastApproved(s: Store, now: int, e: Id)
    requires e in s.events
  {
    s.events[e].date < now && s.events[e].status == Approved
  }

  function Selected(s: Store, now: int): (r: set<Id>)
    ensures forall e :: e in r <==> e in s.events && PastApproved(s, now, e)
  {
    set e | e in s.events && PastApproved(s, now, e)
  }

  /** The reservation after the sweep: reserved ones of a selected event become cancelled. */
  function Swept(res: Reservation, picked: set<Id>): Reservation {
    if res.eventId in picked && res.status == Reserved then res.(status := Cancelled) else res
  }

  function Sweep(s: Store, now: int): (r: Store)
    ensures Selected(s, now) == {} ==> r == s
    ensures r.events.Keys == s.events.Keys && r.reservations.Keys == s.reservations.Keys
    ensures forall e :: e in s.events ==>
      && (PastApproved(s, now, e) ==> r.events[e] == s.events[e].(status := Completed))
      && (!PastApproved(s, now, e) ==> r.events[e] == s.events[e])
    ensures forall k :: k in s.reservations ==>
      var res := s.reservations[k];
      && (res.eventId in s.events && PastApproved(s, now, res.eventId) && res.status == Reserved ==>
            r.reservations[k] == res.(status := Cancelled))
      && (!(res.eventId in s.events && PastApproved(s, now, res.eventId) && res.status == Reserved) ==>
            r.reservations[k] == res)
    ensures forall e :: e in s.events ==> r.events[e].availableSeats == s.events[e].availableSeats
    ensures r.payments == s.payments && r.carts == s.carts && r.nextId == s.nextId
  {
    var picked := Selected(s, now);
    if picked == {} then s
    else
      s.(events := map e | e in s.events ::
                     if e in picked then s.events[e].(status := Completed) else s.events[e],
         reservations := map k | k in s.reservations :: Swept(s.reservations[k], picked))
  }

  // ------------------------------------------------------------------ lemmas

  /** After the sweep no reservation holds seats against a selected event. */
  lemma SweepReleasesSelected(s: Store, now: int, e: Id)
    requires e in s.events && PastApproved(s, now, e)
    ensures SeatsHeld(Sweep(s, now), e) == 0
  {
    var s' := Sweep(s, now);
    forall k: Id | k < s'.nextId
      ensures HeldBy(s'.reservations, k, e) == 0
    {
    }
    HeldNone(s'.reservations, e, s'.nextId);
  }

  /** Events the sweep does not select keep both their counters and their held seats, so the invariant. */
  lemma SweepKeepsUnselected(s: Store, now: int, e: Id)
    requires e in s.events && !PastApproved(s, now, e)
    ensures SeatsHeld(Sweep(s, now), e) == SeatsHeld(s, e)
    ensures Sweep(s, now).events[e] == s.events[e]
  {
    var s' := Sweep(s, now);
    forall k: Id | k < s.nextId
      ensures HeldBy(s.reservations, k, e) == HeldBy(s'.reservations, k, e)
    {
    }
    HeldSame(s.reservations, s'.reservations, e, s.nextId);
  }

  /**
   The seats the sweep strands: a selected event keeps its free-seat counter while
   its held seats drop to zero, so its counters fall short by what was held.
   */
  lemma SweepStrandsSeats(s: Store, now: int, e: Id)
    requires Conserved(s)
    requires e in s.events && PastApproved(s, now, e)
    ensures Sweep(s, now).events[e].availableSeats + SeatsHeld(s, e) == s.events[e].totalSeats
    ensures Sweep(s, now).events[e].totalSeats == s.events[e].totalSeats
    ensures SeatsHeld(Sweep(s, now), e) == 0
  {
    SweepReleasesSelected(s, now, e);
  }

  /** Running the sweep twice at the same time changes nothing the first run did not. */
  lemma SweepIdempotent(s: Store, now: int)
    ensures Sweep(Sweep(s, now), now) == Sweep(s, now)
  {
    var s1 := Sweep(s, now);
    assert Selected(s1, now) == {};
  }

  /** The sweep keeps the id discipline. */
  lemma SweepAllocated(s: Store, now: int)
    requires Allocated(s)
    ensures Allocated(Sweep(s, now))
  {
  }

  /**
   The sweep writes a status the schema's enum does not list: a store that met the
   schema no longer does after a sweep that selects anything.
   */
  lemma SweepLeavesEnum(s: Store, now: int, e: Id)
    requires e in s.events && PastApproved(s, now, e)
    ensures !SchemaValid(Sweep(s, now))
  {
    assert !ValidEvent(Sweep(s, now).events[e]);
  }

  /**
   The sweep keeps the books covered: no counter changes and held seats only
   fall, so what is left unaccounted only grows and nothing is oversold.
   */
  lemma SweepKeepsCovered(s: Store, now: int)
    requires Covered(s)
    ensures Covered(Sweep(s, now))
    ensures forall e :: e in s.events ==> Unaccounted(Sweep(s, now), e) >= Unaccounted(s, e)
  {
    var s' := Sweep(s, now);
    forall e | e in s.events
      ensures Unaccounted(s', e) >= Unaccounted(s, e)
    {
      if PastApproved(s, now, e) {
        SweepReleasesSelected(s, now, e);
        HeldNonNegative(s.reservations, e, s.nextId);
      } else {
        SweepKeepsUnselected(s, now, e);
      }
    }
    forall k | k in s'.reservations
      ensures ValidReservation(s'.reservations[k])
    {
      assert ValidReservation(s.reservations[k]);
    }
  }
}
