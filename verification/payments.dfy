/**
 The payment handlers (src/controllers/payment.controller.js): checkout opens a
 pending payment for a reserved reservation; verify sets the payment's outcome
 and links it back to the requester's unpaid reservations for that event.

 The gateway calls (Stripe payment intent, PayPal order) are not modelled; the
 `gateway` parameter stands for the transaction id they return, or `None` when
 the gateway is not configured or its call fails, both of which answer 500.
 */
module Payments {
  import opened Records
  import opened Ledger

  /**
   Start paying for reservation `resId`. Only its owner may, and only while it is
   reserved. Neither the reservation nor any event changes.
   */
  function Checkout(s: Store, user: UserId, resId: Id, via: Method, gateway: Option<string>): (r: Reply)
    ensures r.outcome == NotFound <==> !(resId in s.reservations && s.reservations[resId].userId == user)
    ensures r.outcome == BadRequest <==>
      resId in s.reservations && s.reservations[resId].userId == user && s.reservations[resId].status != Reserved
    ensures r.outcome == ServerError <==>
      && resId in s.reservations && s.reservations[resId].userId == user && s.reservations[resId].status == Reserved
      && via != Local && gateway.None?
    ensures r.outcome != Ok ==> r.store == s
    ensures r.outcome == Ok ==>
      var res := s.reservations[resId];
      && r.store.nextId == s.nextId + 1
      && r.store.payments.Keys == s.payments.Keys + {s.nextId}
      && (forall k :: k in s.payments && k != s.nextId ==> r.store.payments[k] == s.payments[k])
      && r.store.payments[s.nextId].userId == user
      && r.store.payments[s.nextId].eventId == res.eventId
      && r.store.payments[s.nextId].amount == res.totalPrice
      && r.store.payments[s.nextId].via == via
      && r.store.payments[s.nextId].status == PayPending
      && r.store.payments[s.nextId].transactionId == (if via == Local then None else gateway)
    ensures r.store.reservations == s.reservations && r.store.events == s.events && r.store.carts == s.carts
  {
    if !(resId in s.reservations && s.reservations[resId].userId == user) then
      Reply(s, NotFound)
    else
      var res := s.reservations[resId];
      if res.status != Reserved then
        Reply(s, BadRequest)
      else if via != Local && gateway.None? then
        Reply(s, ServerError)
      else
        var tx := if via == Local then None else gateway;
        var payment := Payment(user, res.eventId, res.totalPrice, via, tx, PayPending);
        Reply(s.(payments := s.payments[s.nextId := payment], nextId := s.nextId + 1), Ok)
  }

  /** The `updateMany` filter of verify: the requester's reserved, not yet linked reservations for the event. */
  predicate AwaitsLink(res: Reservation, user: UserId, eventId: Id) {
    res.userId == user && res.eventId == eventId && res.status == Reserved && res.paymentId.None?
  }

  /** A supplied transaction id that JavaScript treats as truthy (present and non-empty). */
  predicate Supplied(tx: Option<string>) {
    tx.Some? && tx.value != ""
  }

  /**
   Record the outcome of payment `payId`. Any status may be written over any other
   (default `completed`); the transaction id is replaced only when one is supplied.
   Every reservation awaiting a link gets this payment's id; no other record changes.
   */
  function Verify(s: Store, user: UserId, payId: Id, status: Option<PaymentStatus>, tx: Option<string>): (r: Reply)
    ensures r.outcome == NotFound <==> !(payId in s.payments && s.payments[payId].userId == user)
    ensures r.outcome != NotFound ==> r.outcome == Ok
    ensures r.outcome == NotFound ==> r.store == s
    ensures r.outcome == Ok ==>
      var p := s.payments[payId];
      && r.store.payments.Keys == s.payments.Keys
      && (forall k :: k in s.payments && k != payId ==> r.store.payments[k] == s.payments[k])
      && r.store.payments[payId].status == status.GetOr(PayCompleted)
      && r.store.payments[payId].transactionId == (if Supplied(tx) then tx else p.transactionId)
      && r.store.payments[payId].(status := p.status, transactionId := p.transactionId) == p
    ensures r.outcome == Ok ==>
      var p := s.payments[payId];
      && r.store.reservations.Keys == s.reservations.Keys
      && (forall k :: k in s.reservations && AwaitsLink(s.reservations[k], user, p.eventId) ==>
            r.store.reservations[k] == s.reservations[k].(paymentId := Some(payId)))
      && (forall k :: k in s.reservations && !AwaitsLink(s.reservations[k], user, p.eventId) ==>
            r.store.reservations[k] == s.reservations[k])
    ensures r.store.events == s.events && r.store.carts == s.carts && r.store.nextId == s.nextId
  {
    if !(payId in s.payments && s.payments[payId].userId == user) then
      Reply(s, NotFound)
    else
      var p := s.payments[payId];
      var p' := p.(status := status.GetOr(PayCompleted),
                   transactionId := if Supplied(tx) then tx else p.transactionId);
      var linked := map k | k in s.reservations ::
        if AwaitsLink(s.reservations[k], user, p.eventId) then s.reservations[k].(paymentId := Some(payId))
        else s.reservations[k];
      Reply(s.(payments := s.payments[payId := p'], reservations := linked), Ok)
  }

  // ------------------------------------------------------------------ lemmas

  /** Payment handlers hand out only the allocator's next id. */
  lemma PaymentOpsAllocated(s: Store, user: UserId, id: Id, via: Method, gateway: Option<string>,
                            status: Option<PaymentStatus>, tx: Option<string>)
    requires Allocated(s)
    ensures Allocated(Checkout(s, user, id, via, gateway).store)
    ensures Allocated(Verify(s, user, id, status, tx).store)
  {
  }

  /** Checkout allocates an id and touches no reservation or counter, so it keeps the books. */
  lemma CheckoutKeepsBooks(s: Store, user: UserId, resId: Id, via: Method, gateway: Option<string>)
    requires Allocated(s)
    ensures KeepsBooks(s, Checkout(s, user, resId, via, gateway).store)
  {
    BooksFrame(s, Checkout(s, user, resId, via, gateway).store);
  }

  /** Linking payments changes no reservation's status or quantity, so no seat moves. */
  lemma VerifyKeepsBooks(s: Store, user: UserId, payId: Id, status: Option<PaymentStatus>, tx: Option<string>)
    requires Allocated(s)
    ensures KeepsBooks(s, Verify(s, user, payId, status, tx).store)
  {
    var s' := Verify(s, user, payId, status, tx).store;
    forall e | e in s'.events
      ensures Unaccounted(s', e) == Unaccounted(s, e)
    {
      forall k: Id | k < s.nextId
        ensures HeldBy(s.reservations, k, e) == HeldBy(s'.reservations, k, e)
      {
      }
      HeldSame(s.reservations, s'.reservations, e, s.nextId);
    }
  }

  /** The amount of a payment opened at checkout is the reservation's snapshotted price, so it is non-negative. */
  lemma CheckoutAmountValid(s: Store, user: UserId, resId: Id, via: Method, gateway: Option<string>)
    requires SchemaValid(s)
    ensures SchemaValid(Checkout(s, user, resId, via, gateway).store)
  {
    var r := Checkout(s, user, resId, via, gateway);
    if r.outcome == Ok {
      assert ValidReservation(s.reservations[resId]);
    }
  }

  /** Verify preserves every schema bound (it writes only enum values and ids). */
  lemma VerifySchemaValid(s: Store, user: UserId, payId: Id, status: Option<PaymentStatus>, tx: Option<string>)
    requires SchemaValid(s)
    ensures SchemaValid(Verify(s, user, payId, status, tx).store)
  {
    var s' := Verify(s, user, payId, status, tx).store;
    forall k | k in s'.reservations
      ensures ValidReservation(s'.reservations[k])
    {
      assert ValidReservation(s.reservations[k]);
    }
  }

  /**
   Verifying the same payment again links nothing new: every reservation the
   first call could link now carries a payment id.
   */
  lemma VerifyLinksOnce(s: Store, user: UserId, payId: Id, status: Option<PaymentStatus>, tx: Option<string>,
                        status2: Option<PaymentStatus>, tx2: Option<string>)
    ensures var once := Verify(s, user, payId, status, tx).store;
      Verify(once, user, payId, status2, tx2).store.reservations == once.reservations
  {
    var once := Verify(s, user, payId, status, tx).store;
    var twice := Verify(once, user, payId, status2, tx2).store;
    if payId in s.payments && s.payments[payId].userId == user {
      var eventId := s.payments[payId].eventId;
      assert once.payments[payId].eventId == eventId;
      forall k | k in once.reservations
        ensures twice.reservations[k] == once.reservations[k]
      {
        assert !AwaitsLink(once.reservations[k], user, eventId);
      }
    }
  }

  /** Verify accepts every transition, including leaving `completed` for `failed` or `pending`. */
  lemma VerifyAnyTransition(s: Store, user: UserId, payId: Id, to: PaymentStatus)
    requires payId in s.payments && s.payments[payId].userId == user
    ensures Verify(s, user, payId, Some(to), None).outcome == Ok
    ensures Verify(s, user, payId, Some(to), None).store.payments[payId].status == to
    ensures Verify(s, user, payId, Some(to), None).store.payments[payId].transactionId
            == s.payments[payId].transactionId
  {
  }
}
