/**
 The booking state as a transition system: every handler of the core is one
 atomic step on the store, and a sequence of requests is run one after another.
 The seat invariant holds along every sequence that neither edits seat counters
 directly nor runs the past-event sweep; the schema holds along every sequence
 whose writes stay within it.
 */
module Booking {
  import opened Records
  import opened Ledger
  import Reservations
  import Payments
  import Carts
  import Events
  import Cleanup

  datatype Request =
    | CreateEventReq(actor: Actor, draft: Events.EventDraft)
    | UpdateEventReq(actor: Actor, id: Id, patch: Events.EventPatch)
    | DeleteEventReq(actor: Actor, id: Id)
    | UpdateStatusReq(id: Id, status: Option<EventStatus>)
    | ReserveReq(user: UserId, eventId: Id, qty: int)
    | CancelReq(user: UserId, id: Id)
    | CheckoutReq(user: UserId, id: Id, via: Method, gateway: Option<string>)
    | VerifyReq(user: UserId, id: Id, payStatus: Option<PaymentStatus>, tx: Option<string>)
    | AddItemReq(user: UserId, eventId: Id, qty: int)
    | UpdateItemReq(user: UserId, id: Id, qty: int)
    | RemoveItemReq(user: UserId, id: Id)
    | ClearCartReq(user: UserId)
    | SweepReq(now: int)

  /** One request handled as one atomic step. */
  function Apply(s: Store, req: Request): Reply {
    match req
    case CreateEventReq(actor, d) => Events.CreateEvent(s, actor, d)
    case UpdateEventReq(actor, id, p) => Events.UpdateEvent(s, actor, id, p)
    case DeleteEventReq(actor, id) => Events.DeleteEvent(s, actor, id)
    case UpdateStatusReq(id, st) => Events.UpdateEventStatus(s, id, st)
    case ReserveReq(user, e, q) => Reservations.CreateReservation(s, user, e, q)
    case CancelReq(user, id) => Reservations.CancelReservation(s, user, id)
    case CheckoutReq(user, id, via, g) => Payments.Checkout(s, user, id, via, g)
    case VerifyReq(user, id, st, tx) => Payments.Verify(s, user, id, st, tx)
    case AddItemReq(user, e, q) => Carts.AddItemToCart(s, user, e, q)
    case UpdateItemReq(user, id, q) => Carts.UpdateCartItem(s, user, id, q)
    case RemoveItemReq(user, id) => Carts.RemoveCartItem(s, user, id)
    case ClearCartReq(user) => Carts.ClearCart(s, user)
    case SweepReq(now) => Reply(Cleanup.Sweep(s, now), Ok)
  }

  /** The store after handling the requests in order. */
  function Run(s: Store, reqs: seq<Request>): Store
    decreases |reqs|
  {
    if reqs == [] then s else Run(Apply(s, reqs[0]).store, reqs[1..])
  }

  /**
   Requests that move seats only through booking and cancelling: no update of a
   seat counter, no event created under an id the client chose, and no sweep.
   */
  predicate KeepsLedger(req: Request) {
    match req
    case CreateEventReq(_, d) => d.id.None?
    case UpdateEventReq(_, _, p) => Events.SeatNeutral(p)
    case SweepReq(_) => false
    case _ => true
  }

  /** Requests whose writes stay within the schema. */
  predicate StaysInSchema(req: Request) {
    match req
    case UpdateEventReq(_, _, p) => Events.PatchWithinSchema(p)
    case UpdateStatusReq(_, st) => st.Some? ==> InEventEnum(st.value)
    case SweepReq(_) => false
    case _ => true
  }

  /**
   Requests that keep every event from being oversold: those that keep the
   ledger, and the sweep. Nothing here asks that the written values be within
   the schema: a status, price or title outside it moves no seat.
   */
  predicate KeepsBound(req: Request) {
    req.SweepReq? || KeepsLedger(req)
  }

  /** The empty patch, for the lemmas' unused operations. */
  const NoPatch := Events.EventPatch(None, None, None, None, None, None, None, None, None)

  /** Every step keeps the id discipline. */
  lemma ApplyAllocated(s: Store, req: Request)
    requires Allocated(s)
    ensures Allocated(Apply(s, req).store)
  {
    if req.CreateEventReq? || req.UpdateEventReq? || req.DeleteEventReq? || req.UpdateStatusReq? {
      EventStepAllocated(s, req);
    } else if req.AddItemReq? || req.UpdateItemReq? || req.RemoveItemReq? || req.ClearCartReq? {
      CartStepAllocated(s, req);
    } else {
      match req
      case ReserveReq(user, e, q) => Reservations.CreateAllocated(s, user, e, q);
      case CancelReq(user, id) => Reservations.CancelAllocated(s, user, id);
      case CheckoutReq(user, id, via, g) => Payments.PaymentOpsAllocated(s, user, id, via, g, None, None);
      case VerifyReq(user, id, st, tx) => Payments.PaymentOpsAllocated(s, user, id, Local, None, st, tx);
      case SweepReq(now) => Cleanup.SweepAllocated(s, now);
    }
  }

  lemma EventStepAllocated(s: Store, req: Request)
    requires Allocated(s)
    requires req.CreateEventReq? || req.UpdateEventReq? || req.DeleteEventReq? || req.UpdateStatusReq?
    ensures Allocated(Apply(s, req).store)
  {
    match req
    case CreateEventReq(actor, d) => Events.CreateEventAllocated(s, actor, d);
    case UpdateEventReq(actor, id, p) => Events.EventEditsAllocated(s, actor, id, p, None);
    case DeleteEventReq(actor, id) => Events.EventEditsAllocated(s, actor, id, NoPatch, None);
    case UpdateStatusReq(id, st) => Events.EventEditsAllocated(s, Actor(0, Admin), id, NoPatch, st);
  }

  lemma CartStepAllocated(s: Store, req: Request)
    requires Allocated(s)
    requires req.AddItemReq? || req.UpdateItemReq? || req.RemoveItemReq? || req.ClearCartReq?
    ensures Allocated(Apply(s, req).store)
  {
    match req
    case AddItemReq(user, e, q) => Carts.AddItemAllocated(s, user, e, q);
    case UpdateItemReq(user, id, q) => Carts.CartEditsAllocated(s, user, id, q);
    case RemoveItemReq(user, id) => Carts.CartEditsAllocated(s, user, id, 1);
    case ClearCartReq(user) => Carts.CartEditsAllocated(s, user, 0, 1);
  }

  /** One step that keeps the ledger keeps the books of every event. */
  lemma ApplyKeepsBooks(s: Store, req: Request)
    requires Allocated(s) && KeepsLedger(req)
    ensures KeepsBooks(s, Apply(s, req).store)
  {
    match req
    case CreateEventReq(actor, d) => Events.CreateEventKeepsBooks(s, actor, d);
    case UpdateEventReq(actor, id, p) => Events.UpdateEventKeepsBooks(s, actor, id, p);
    case DeleteEventReq(actor, id) => Events.DeleteAndStatusKeepBooks(s, actor, id, None);
    case UpdateStatusReq(id, st) => Events.DeleteAndStatusKeepBooks(s, Actor(0, Admin), id, st);
    case ReserveReq(user, e, q) => Reservations.CreateKeepsBooks(s, user, e, q);
    case CancelReq(user, id) => Reservations.CancelKeepsBooks(s, user, id);
    case CheckoutReq(user, id, via, g) => Payments.CheckoutKeepsBooks(s, user, id, via, g);
    case VerifyReq(user, id, st, tx) => Payments.VerifyKeepsBooks(s, user, id, st, tx);
    case AddItemReq(user, e, q) => Carts.CartOpsKeepBooks(s, user, e, 0, q);
    case UpdateItemReq(user, id, q) => Carts.CartOpsKeepBooks(s, user, 0, id, q);
    case RemoveItemReq(user, id) => Carts.CartOpsKeepBooks(s, user, 0, id, 1);
    case ClearCartReq(user) => Carts.CartOpsKeepBooks(s, user, 0, 0, 1);
  }

  /**
   Conservation: along any sequence of requests that keep the ledger, every
   event's free seats plus the seats its reserved reservations hold stay equal
   to its total.
   */
  lemma {:induction false} RunConserves(s: Store, reqs: seq<Request>)
    requires Allocated(s) && Conserved(s)
    requires forall i :: 0 <= i < |reqs| ==> KeepsLedger(reqs[i])
    ensures Allocated(Run(s, reqs)) && Conserved(Run(s, reqs))
    decreases |reqs|
  {
    if reqs != [] {
      ApplyAllocated(s, reqs[0]);
      ApplyKeepsBooks(s, reqs[0]);
      BooksConserve(s, Apply(s, reqs[0]).store);
      RunConserves(Apply(s, reqs[0]).store, reqs[1..]);
    }
  }

  /** One step whose writes stay within the schema keeps the schema. */
  lemma ApplySchemaValid(s: Store, req: Request)
    requires Allocated(s) && SchemaValid(s) && StaysInSchema(req)
    ensures SchemaValid(Apply(s, req).store)
  {
    match req
    case CreateEventReq(actor, d) => Events.CreateEventSchemaValid(s, actor, d);
    case UpdateEventReq(actor, id, p) => Events.UpdateEventSchemaValid(s, actor, id, p);
    case DeleteEventReq(actor, id) => Events.DeleteAndStatusSchemaValid(s, actor, id, None);
    case UpdateStatusReq(id, st) => Events.DeleteAndStatusSchemaValid(s, Actor(0, Admin), id, st);
    case ReserveReq(user, e, q) => Reservations.CreateSchemaValid(s, user, e, q);
    case CancelReq(user, id) => Reservations.CancelSchemaValid(s, user, id);
    case CheckoutReq(user, id, via, g) => Payments.CheckoutAmountValid(s, user, id, via, g);
    case VerifyReq(user, id, st, tx) => Payments.VerifySchemaValid(s, user, id, st, tx);
    case AddItemReq(user, e, q) => Carts.AddItemSchemaValid(s, user, e, q);
    case UpdateItemReq(user, id, q) => Carts.UpdateItemSchemaValid(s, user, id, q);
    case RemoveItemReq(user, id) => Carts.RemoveAndClearSchemaValid(s, user, id);
    case ClearCartReq(user) => Carts.RemoveAndClearSchemaValid(s, user, 0);
  }

  /** The schema's bounds hold along any sequence of requests whose writes stay within them. */
  lemma {:induction false} RunSchemaValid(s: Store, reqs: seq<Request>)
    requires Allocated(s) && SchemaValid(s)
    requires forall i :: 0 <= i < |reqs| ==> StaysInSchema(reqs[i])
    ensures Allocated(Run(s, reqs)) && SchemaValid(Run(s, reqs))
    decreases |reqs|
  {
    if reqs != [] {
      ApplyAllocated(s, reqs[0]);
      ApplySchemaValid(s, reqs[0]);
      RunSchemaValid(Apply(s, reqs[0]).store, reqs[1..]);
    }
  }

  /**
   The corrected update is the update as written applied to the guarded patch,
   and guarding keeps a request within the ledger and the schema. So every
   invariant proved here along runs covers the corrected update as well.
   */
  lemma GuardedIsAnUpdate(s: Store, actor: Actor, id: Id, p: Events.EventPatch)
    ensures Events.UpdateEventGuarded(s, actor, id, p)
      == Apply(s, UpdateEventReq(actor, id, Events.GuardedStripped(actor, p)))
    ensures KeepsLedger(UpdateEventReq(actor, id, p)) ==>
      KeepsLedger(UpdateEventReq(actor, id, Events.GuardedStripped(actor, p)))
    ensures StaysInSchema(UpdateEventReq(actor, id, p)) ==>
      StaysInSchema(UpdateEventReq(actor, id, Events.GuardedStripped(actor, p)))
  {
  }

  /** The store before any request: nothing exists yet. */
  const Empty := Store(map[], map[], map[], map[], 0)

  /**
   One step that keeps the bound keeps the seat fields valid: a patch writes no
   seat counter, a new event starts with a non-negative one, a booking takes no more seats than
   are free, and every new reservation is within its schema.
   */
  lemma ApplySeatFieldsValid(s: Store, req: Request)
    requires SeatFieldsValid(s) && KeepsBound(req) && !req.SweepReq?
    ensures SeatFieldsValid(Apply(s, req).store)
  {
    if req.CreateEventReq? || req.UpdateEventReq? || req.DeleteEventReq? || req.UpdateStatusReq? {
      EventStepSeatFieldsValid(s, req);
    } else if req.ReserveReq? || req.CancelReq? {
      ReservationStepSeatFieldsValid(s, req);
    } else if req.CheckoutReq? || req.VerifyReq? {
      PaymentStepSeatFieldsValid(s, req);
    }
  }

  lemma EventStepSeatFieldsValid(s: Store, req: Request)
    requires SeatFieldsValid(s) && KeepsLedger(req)
    requires req.CreateEventReq? || req.UpdateEventReq? || req.DeleteEventReq? || req.UpdateStatusReq?
    ensures SeatFieldsValid(Apply(s, req).store)
  {
    match req
    case UpdateEventReq(actor, id, p) =>
      if Events.MayEdit(s, actor, id) {
        var s' := Apply(s, req).store;
        assert s'.events[id].availableSeats == p.availableSeats.GetOr(s.events[id].availableSeats);
      }
    case _ =>
  }

  lemma ReservationStepSeatFieldsValid(s: Store, req: Request)
    requires SeatFieldsValid(s)
    requires req.ReserveReq? || req.CancelReq?
    ensures SeatFieldsValid(Apply(s, req).store)
  {
    match req
    case CancelReq(user, id) =>
      if id in s.reservations {
        assert ValidReservation(s.reservations[id]);
      }
    case ReserveReq(_, _, _) =>
  }

  lemma PaymentStepSeatFieldsValid(s: Store, req: Request)
    requires SeatFieldsValid(s)
    requires req.CheckoutReq? || req.VerifyReq?
    ensures SeatFieldsValid(Apply(s, req).store)
  {
    match req
    case VerifyReq(user, id, st, tx) =>
      var s' := Apply(s, req).store;
      forall k | k in s'.reservations
        ensures ValidReservation(s'.reservations[k])
      {
        assert ValidReservation(s.reservations[k]);
      }
    case CheckoutReq(_, _, _, _) =>
  }

  /** One step that keeps the bound keeps the books covered. */
  lemma ApplyCovered(s: Store, req: Request)
    requires Allocated(s) && Covered(s) && KeepsBound(req)
    ensures Covered(Apply(s, req).store)
  {
    if req.SweepReq? {
      Cleanup.SweepKeepsCovered(s, req.now);
    } else {
      ApplyKeepsBooks(s, req);
      ApplySeatFieldsValid(s, req);
      BooksCover(s, Apply(s, req).store);
    }
  }

  /** The books stay covered along any sequence of requests that keep the bound, sweeps included. */
  lemma {:induction false} RunCovered(s: Store, reqs: seq<Request>)
    requires Allocated(s) && Covered(s)
    requires forall i :: 0 <= i < |reqs| ==> KeepsBound(reqs[i])
    ensures Allocated(Run(s, reqs)) && Covered(Run(s, reqs))
    decreases |reqs|
  {
    if reqs != [] {
      ApplyAllocated(s, reqs[0]);
      ApplyCovered(s, reqs[0]);
      RunCovered(Apply(s, reqs[0]).store, reqs[1..]);
    }
  }

  /**
   No oversell from the empty store: along any sequence of requests that keep
   the ledger, with sweeps anywhere in between and whatever values outside the
   schema the unvalidated updates write, no event ever has more seats held
   against it than it has seats.
   */
  lemma NoOversellFromEmpty(reqs: seq<Request>, e: Id)
    requires forall i :: 0 <= i < |reqs| ==> KeepsBound(reqs[i])
    ensures e in Run(Empty, reqs).events ==>
      0 <= SeatsHeld(Run(Empty, reqs), e) <= Run(Empty, reqs).events[e].totalSeats
    ensures e in Run(Empty, reqs).events ==>
      Run(Empty, reqs).events[e].availableSeats <= Run(Empty, reqs).events[e].totalSeats
  {
    RunCovered(Empty, reqs);
    if e in Run(Empty, reqs).events {
      NoOversell(Run(Empty, reqs), e);
    }
  }

  /**
   Paying does not protect a booking: after checkout and verify the reservation
   is still `reserved`, so its owner can cancel it and its seats go back, with
   the payment left as it was.
   */
  lemma PaidReservationStillCancellable(s: Store, user: UserId, resId: Id, via: Method, gateway: Option<string>,
                                        st: Option<PaymentStatus>, tx: Option<string>)
    requires Allocated(s)
    requires Payments.Checkout(s, user, resId, via, gateway).outcome == Ok
    ensures var paid := Payments.Checkout(s, user, resId, via, gateway).store;
      var verified := Payments.Verify(paid, user, s.nextId, st, tx);
      var cancelled := Reservations.CancelReservation(verified.store, user, resId);
      var res := s.reservations[resId];
      && verified.outcome == Ok
      && verified.store.reservations[resId].status == Reserved
      && cancelled.outcome == Ok
      && cancelled.store.reservations[resId].status == Cancelled
      && cancelled.store.payments == verified.store.payments
      && (res.eventId in s.events ==>
            cancelled.store.events[res.eventId].availableSeats
            == s.events[res.eventId].availableSeats + res.ticketQuantity)
  {
  }
}
