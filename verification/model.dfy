/**
 The records of the booking store (the Mongoose schemas under src/models) and the store itself.

 Numeric fields are unbounded integers rather than naturals: the update paths of
 the handlers (`$inc`, `updateMany`, `findOneAndUpdate`) do not run the schema
 validators, so the store can hold values the schema would refuse. What the
 schema demands is stated separately by the `Valid…` predicates.
 */
module Records {

  /** Identifiers the store allocates (events, reservations, payments, cart items). */
  type Id = nat
  /** Identifiers of users, which this model never allocates. */
  type UserId = nat

  datatype Option<T> = None | Some(value: T) {
    function GetOr(default: T): T {
      if Some? then value else default
    }
  }

  datatype Role = Attendee | Organizer | Admin

  /** The authenticated requester: id and role are taken as given. */
  datatype Actor = Actor(id: UserId, role: Role)

  // ---------------------------------------------------------------- events

  datatype Category = Music | Tech | Education | Sports | Art | Other

  /** `Completed` is outside the schema's enum but is written by the past-event sweep. */
  datatype EventStatus = Pending | Approved | Rejected | Completed

  predicate InEventEnum(st: EventStatus) {
    st != Completed
  }

  datatype Event = Event(
    organizerId: UserId,
    title: string,
    category: Category,
    date: int,
    price: int,
    totalSeats: int,
    availableSeats: int,
    status: EventStatus)

  /** The schema's bounds: required non-empty title, non-negative price and seats, enum status. */
  predicate ValidEvent(e: Event) {
    && e.title != ""
    && e.price >= 0
    && e.totalSeats >= 0
    && e.availableSeats >= 0
    && InEventEnum(e.status)
  }

  // ---------------------------------------------------------- reservations

  datatype ReservationStatus = Reserved | Cancelled

  datatype Reservation = Reservation(
    eventId: Id,
    userId: UserId,
    ticketQuantity: int,
    totalPrice: int,
    status: ReservationStatus,
    paymentId: Option<Id>)

  predicate ValidReservation(r: Reservation) {
    r.ticketQuantity >= 1 && r.totalPrice >= 0
  }

  // -------------------------------------------------------------- payments

  datatype Method = Stripe | Paypal | Local

  datatype PaymentStatus = PayPending | PayCompleted | PayFailed

  datatype Payment = Payment(
    userId: UserId,
    eventId: Id,
    amount: int,
    via: Method,
    transactionId: Option<string>,
    status: PaymentStatus)

  predicate ValidPayment(p: Payment) {
    p.amount >= 0
  }

  // ----------------------------------------------------------------- carts

  datatype CartItem = CartItem(id: Id, eventId: Id, quantity: int)

  /** A user's cart; carts are keyed by user, which is the schema's unique `userId`. */
  datatype Cart = Cart(items: seq<CartItem>)

  predicate ValidCart(c: Cart) {
    && (forall i :: 0 <= i < |c.items| ==> c.items[i].quantity >= 1)
    && (forall i, j :: 0 <= i < j < |c.items| ==> c.items[i].id != c.items[j].id)
  }

  // ----------------------------------------------------------------- store

  /**
   The whole booking state. `nextId` is the store's id allocator: every id it
   hands out is fresh, as with Mongo object ids. The one id the allocator does
   not choose is an `_id` a client sends to `createEvent`; the allocator then
   moves past it, and such an id may be one a deleted event once had.
   */
  datatype Store = Store(
    events: map<Id, Event>,
    reservations: map<Id, Reservation>,
    payments: map<Id, Payment>,
    carts: map<UserId, Cart>,
    nextId: Id)

  /** Every id in use, and every event a reservation names, was handed out before `nextId`. */
  predicate Allocated(s: Store) {
    && (forall k :: k in s.events ==> k < s.nextId)
    && (forall k :: k in s.reservations ==> k < s.nextId && s.reservations[k].eventId < s.nextId)
    && (forall k :: k in s.payments ==> k < s.nextId)
    && (forall u, i :: u in s.carts && 0 <= i < |s.carts[u].items| ==> s.carts[u].items[i].id < s.nextId)
  }

  /** Every record satisfies its schema. */
  predicate SchemaValid(s: Store) {
    && (forall k :: k in s.events ==> ValidEvent(s.events[k]))
    && (forall k :: k in s.reservations ==> ValidReservation(s.reservations[k]))
    && (forall k :: k in s.payments ==> ValidPayment(s.payments[k]))
    && (forall u :: u in s.carts ==> ValidCart(s.carts[u]))
  }

  // ------------------------------------------------------------- responses

  /** HTTP outcome of a handler: 200/201, 400, 404, 500. */
  datatype Outcome = Ok | BadRequest | NotFound | ServerError

  /** The store after a handler ran, and what the handler answered. */
  datatype Reply = Reply(store: Store, outcome: Outcome)
}
