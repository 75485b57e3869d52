# Event marketplace booking core, modelled in Dafny

This project models the booking core of an Express/Mongoose event-marketplace
backend. Organizers create events with a number of seats. Attendees reserve
tickets, which takes seats from the event's `availableSeats` counter, and
cancel reservations, which gives the seats back. Payments are opened for a
reservation and later verified. Attendees also keep a cart of events they
intend to book. Approved events are listed page by page and searched. A
scheduled sweep closes events whose date has passed.

Each HTTP handler is one pure step from a store to a store and an outcome:
`Ok`, `BadRequest` (400), `NotFound` (404) or `ServerError` (500). The store
holds the events, reservations, payments and carts as maps from ids. It also
holds `nextId`, the next fresh id, which is how ObjectIds behave. The one id
the store does not choose is an `_id` that a client puts in the body of
`createEvent`. That id is kept. If a live event already has it, the insert
fails as a duplicate key. Otherwise the event is stored under it, and the
allocator moves past it. Such an id may have belonged to an event that was
deleted earlier.

The central invariant is seat conservation (`Ledger.Conserved`). For every
event, the free seats plus the seats its `reserved` reservations hold equal
its `totalSeats`. The lemmas state it as bookkeeping: a step keeps the books
(`Ledger.KeepsBooks`) when every event's unaccounted seats stay as they were
and a new event starts with none. Conservation holds along any sequence of
requests, with three exceptions, and each has a lemma:

- An update that writes a seat counter. A concrete store shows the invariant breaking.
- A created event that reuses the `_id` of a deleted event. It inherits the
  reservations still held against that id, and a concrete run shows it oversold.
- The sweep. A lemma gives the exact shortfall.

The weaker bound behind no-oversell (`Ledger.Covered`) says that no event has
more seats free or held than its total. It holds along every sequence of
requests that writes no seat counter and sends no client `_id`. The sweep is
allowed in it, and so are the unvalidated writes of a status, price or title
outside the schema, since none of them moves a seat.

Modules, one per concern:

- `Records` (model.dfy): the records of the Mongoose schemas under src/models,
  their schema bounds (`SchemaValid`), and the id discipline (`Allocated`).
- `Ledger` (ledger.dfy): the seats held per event, conservation, the books
  kept by a step, and no-oversell.
- `Reservations`, `Payments`, `Carts`, `Events` (one file each): the handlers
  of the matching controllers.
- `Catalog` (catalog.dfy): listing with page and limit, and search.
- `Cleanup` (cleanup.dfy): the past-event sweep.
- `Booking` (booking.dfy): every handler as a request, runs of requests, and
  the invariants along them.

Behaviours of the code that the model keeps:

- `updateEventStatus` never reads the result of the status validator on its
  route (src/routes/event.routes.js:27, src/controllers/event.controller.js:86-95).
  Any status is written, and a missing status leaves the event unchanged.
- `createEvent` spreads the request body into the new event
  (src/controllers/event.controller.js:8). A client-supplied status and `_id`
  are kept. A status outside the schema's enum (src/models/Event.js:25) fails
  on insert with a 500. So does a title of white space only, which the
  schema's `trim` (src/models/Event.js:15) empties before `required` is checked.
  So does an empty `time`, which the route's `isString` check
  (src/routes/event.routes.js:15) lets through and `required`
  (src/models/Event.js:20) refuses.
- `updateEvent` deletes only the top-level `status` key of the body before
  handing the body to the store as an update
  (src/controllers/event.controller.js:62-68), and no sanitizer strips
  operator keys (src/app.js:19-23). A status sent inside `$set` therefore
  reaches the store for every role. The model keeps this (`setStatus`); the
  finding below shows the consequence and the corrected guard.
- Cancelling returns the seats with a plain `$inc`
  (src/controllers/reservation.controller.js:93), without clamping them to
  `totalSeats`. If the event has been deleted, no seats are returned.
- Verify writes whatever status the route lets through, so any transition is
  possible (src/controllers/payment.controller.js:65). An empty transaction id
  counts as absent (line 66).
- The sweep cancels the `reserved` reservations of past events but does not
  return their seats (src/controllers/cleanupPastEvents.js:39). It writes the
  status `completed` (line 43), which the event schema's enum does not list
  (src/models/Event.js:25).
- A reservation is only ever `reserved` or `cancelled`
  (src/models/Reservation.js:9). A payment carries no reservation id
  (src/models/Payment.js:5-10). Deleting an event removes only that event
  (src/controllers/event.controller.js:78).

## Model

| member | source | states |
|---|---|---|
| Reservations.CreateReservation | src/controllers/reservation.controller.js:8-62 | A booking succeeds exactly when the quantity is at least 1, the event exists, is approved and has the seats, and the total price is non-negative. Otherwise the store is unchanged. It answers 500 exactly when everything but the price holds and the total is negative, and 400 for every other failure; it never answers 404. On success the event loses exactly `qty` free seats, the counter stays non-negative, and a new `reserved` reservation is stored under a fresh id with price times quantity as its total. Nothing else changes. |
| Reservations.CancelReservation | src/controllers/reservation.controller.js:75-108 | Answers 404, with no change, exactly when the reservation is missing or belongs to someone else. An already cancelled reservation answers success with no change. Otherwise the reservation becomes `cancelled`, and its event, if it still exists, gets back exactly the reservation's quantity. No other event changes. |
| Reservations.CreateKeepsBooks | src/controllers/reservation.controller.js:22-34 | A booking keeps the books: the seats the decrement takes are exactly the seats the new reservation holds, so no event gains or loses unaccounted seats. |
| Reservations.CancelKeepsBooks | src/controllers/reservation.controller.js:92-96 | A cancellation keeps the books: the seats returned are the seats the reservation held. |
| Reservations.CreateSchemaValid | src/models/Reservation.js:5-10 | Booking keeps every record within the schema's bounds. In particular, the conditional decrement never drives the counter below zero, and the stored total is non-negative. |
| Reservations.CancelSchemaValid | src/models/Reservation.js:5-10 | Cancelling keeps every record within the schema's bounds. |
| Reservations.CancelIdempotent | src/controllers/reservation.controller.js:87-90 | Cancelling a second time gives the same answer and the same store as cancelling once, so seats are never returned twice. |
| Reservations.CreateThenCancelRestoresSeats | src/controllers/reservation.controller.js:93 | Booking and then cancelling the new reservation gives every event back exactly its original counters. |
| Reservations.NoDoubleBooking | src/controllers/reservation.controller.js:22-31 | If two requests each ask for more than half of an event's free seats, only the first is served. The second gets a 400 and changes nothing. |
| Reservations.ReleaseNotClamped | src/controllers/reservation.controller.js:93 | There is a store within the schema where cancelling leaves an event with more free seats than its total. |
| Payments.Checkout | src/controllers/payment.controller.js:15-56 | Answers 404 exactly when the reservation is missing or not the requester's, and 400 exactly when it is not `reserved`. Answers 500 exactly when Stripe or PayPal was chosen and no transaction id is available. Otherwise a `pending` payment is stored under a fresh id with the reservation's event and total price and the gateway's transaction id (none for local). Reservations and events are untouched. |
| Payments.Verify | src/controllers/payment.controller.js:58-74 | Answers 404, with no change, exactly when the payment is missing or not the requester's. Otherwise the status becomes the one sent, `completed` by default. The transaction id is replaced only by a non-empty one. Exactly the requester's `reserved`, unlinked reservations for the payment's event get this payment's id. Every other record is unchanged. |
| Payments.CheckoutKeepsBooks | src/controllers/payment.controller.js:51 | Checkout touches no seat counter and no reservation, so it keeps the books. |
| Payments.VerifyKeepsBooks | src/controllers/payment.controller.js:69 | Linking payments changes no status or quantity, so it keeps the books. |
| Payments.CheckoutAmountValid | src/models/Payment.js:7 | A payment's amount is the reservation's non-negative total, so checkout stays within the schema. |
| Payments.VerifySchemaValid | src/models/Payment.js:5-10 | Verify keeps every record within the schema. |
| Payments.VerifyLinksOnce | src/controllers/payment.controller.js:69 | Verifying the same payment again links no further reservation. |
| Payments.VerifyAnyTransition | src/controllers/payment.controller.js:65 | Any payment status can be overwritten with any other, and the transaction id is kept when none is sent. |
| Booking.PaidReservationStillCancellable | src/controllers/reservation.controller.js:87-96 | After checkout and verify, the reservation is still `reserved`. Its owner can cancel it and get its seats back, and the payment records stay as they were (there is no refund). |
| Carts.AddItemToCart | src/controllers/cart.controller.js:25-69 | Succeeds exactly when the quantity is at least 1 and the event is approved with at least that many free seats. It answers 400 exactly when the quantity is below 1 or the approved event has too few seats. With a valid quantity, an event that is missing or not approved gives 404. Every failure leaves the store unchanged. On success the cart's quantity for that event rises by exactly `qty`, quantities for other events are unchanged, and the user's cart exists afterwards. An event already in the cart is merged in place: every item keeps its id, event and position. Otherwise one item for the event is appended under a fresh id, and only then does the allocator move; a merge or a failure mints no id. |
| Carts.Subtotal | src/models/Cart.js:31-35 | `calculateTotals`: a cart none of whose events exists any more totals nothing. |
| Carts.UpdateCartItem | src/controllers/cart.controller.js:72-109 | Succeeds exactly when the quantity is at least 1, the user has a cart holding an item with that id, and the item's event exists with at least that many free seats. A quantity below 1 answers 400. Otherwise it answers 404 exactly when the cart or the item is missing, and 400 exactly when the item's event is gone or has too few seats. It never answers 500. Every failure leaves the store unchanged. On success exactly that item's quantity is replaced, and the event's status is not checked. |
| Carts.RemoveCartItem | src/controllers/cart.controller.js:112-135 | Answers 404 exactly when the user has no cart. Otherwise the cart keeps exactly the items whose id differs from the one removed. |
| Carts.ClearCart | src/controllers/cart.controller.js:138-146 | Always succeeds, and an existing cart ends up empty. Nobody else's cart changes. |
| Carts.WithoutId | src/controllers/cart.controller.js:122 | The `$pull` keeps exactly the items with a different id, and it is the identity when no item has that id. |
| Carts.WithoutIdAppend | src/controllers/cart.controller.js:122 | The `$pull` distributes over joined item lists and keeps a single item exactly when its id differs, so it keeps the order and multiplicity of the items it keeps. |
| Carts.Added | src/controllers/cart.controller.js:49-57 | Merging or appending raises the cart's quantity for the event by exactly `qty` and leaves every other event's quantity unchanged. A merge keeps the length and every item's id and event, and changes no item but the event's first one. With no item for the event, exactly one new item is appended at the end. |
| Carts.AddItemSubtotal | src/models/Cart.js:31-35 | Adding `qty` tickets of an event raises the cart's subtotal by exactly the event's price times `qty`. |
| Carts.MergeSubtotal | src/controllers/cart.controller.js:53 | Raising one item's quantity by `qty` in place raises the subtotal by exactly `qty` times its event's price. |
| Carts.AddedSubtotal | src/models/Cart.js:31-35 | Merging `qty` tickets into the event's item, or appending a new item for it, raises the subtotal by exactly `qty` times the event's price. |
| Carts.SubtotalSkipsMissing | src/models/Cart.js:33 | Items whose event no longer exists contribute nothing to the subtotal. |
| Carts.SubtotalNonNegative | src/models/Cart.js:33 | With positive quantities and non-negative prices, the subtotal is non-negative. |
| Carts.SubtotalAppend | src/models/Cart.js:33 | The subtotal of two item lists joined together is the sum of their subtotals. |
| Carts.AddItemKeepsOneItemPerEvent | src/controllers/cart.controller.js:49-57 | Adding keeps at most one item per event: an event already in the cart is merged into its item, and a new item is appended only for an event the cart lacks. |
| Carts.CartEditsKeepOneItemPerEvent | src/controllers/cart.controller.js:83-140 | Changing a quantity, removing an item and clearing a cart keep at most one item per event. |
| Carts.AddItemSchemaValid | src/models/Cart.js:9-13 | Adding an item keeps every cart within the schema (quantities at least 1, distinct item ids) and keeps the id discipline. |
| Carts.UpdateItemSchemaValid | src/models/Cart.js:9-13 | Updating an item keeps every cart within the schema and keeps the id discipline. |
| Carts.RemoveAndClearSchemaValid | src/models/Cart.js:3-28 | Removing an item and clearing a cart keep the schema and the id discipline. |
| Carts.CartOpsKeepBooks | src/controllers/cart.controller.js:44-57 | Cart operations write no event and no reservation, so each keeps the books. |
| Events.CreateEvent | src/controllers/event.controller.js:4-14 | Answers 400 exactly when the title, description, price or seat checks of the route fail. When they pass, it answers 500 exactly when the insert fails: a status outside the schema's enum, a title of white space only, an empty `time`, or an `_id` a live event already has. Otherwise it answers success. Every failure leaves the store unchanged. On success exactly one event is added, under the client's `_id` if one was sent and a fresh id otherwise, and the allocator moves past it. The new event is owned by the requester, has all its seats free, carries the trimmed title, the other sent fields and the sent status (`pending` by default), and is within the schema. Existing events are unchanged. |
| Events.Trim | src/models/Event.js:15 | The schema's `trim`: the stored title is no longer than the sent one, does not start or end with JavaScript white space, and is empty exactly when the sent title is white space only. |
| Events.TrimCutsOnlySpace | src/models/Event.js:15 | Trimming keeps one contiguous stretch of the sent title and cuts only white space before and after it. |
| Events.Stripped | src/controllers/event.controller.js:63 | Anyone but an admin loses the top-level status of an update, and the rest of the update is kept, including a status sent inside `$set`. An admin's update is passed on whole. |
| Events.UpdateEvent | src/controllers/event.controller.js:60-74 | Answers 404, with no change, exactly when the event is missing or, for an organizer, not theirs. Otherwise only that event changes, to the event with the sent fields written over it. For anyone but an admin the status becomes the one sent inside `$set`, and stays as it was if none was. For an admin it becomes the top-level status if one was sent, else the `$set` one if sent, else stays. |
| Events.GuardedStripped | src/controllers/event.controller.js:63 | The corrected guard: anyone but an admin loses both the top-level and the `$set` status, and nothing else of the update. An admin's update is passed on whole. |
| Events.UpdateEventGuarded | src/controllers/event.controller.js:60-74 | The corrected update answers as the update as written does. On success a non-admin never changes the event's status. It is the update as written whenever no `$set` status was sent or the requester is an admin. |
| Events.OrganizerSelfApproves | src/controllers/event.controller.js:62-68 | An organizer's update that sends only `$set` status `approved` passes the guard untouched and turns their own `pending` event into an `approved` one. |
| Events.GuardedKeepsPending | src/controllers/event.controller.js:63 | The same request under the corrected guard succeeds and leaves the event `pending`. |
| Events.DeleteEvent | src/controllers/event.controller.js:76-84 | Answers 404, with no change, exactly when the ownership filter does not match. Otherwise exactly that event is removed, and nothing that refers to it is touched. |
| Events.UpdateEventStatus | src/controllers/event.controller.js:86-95 | Answers 404 exactly when the event is missing. Otherwise any sent status is written, and a missing status changes nothing. |
| Events.CreateEventKeepsBooks | src/controllers/event.controller.js:8-9 | Creating an event keeps the books exactly when nothing is held against its id, and a fresh id never has anything held against it. A created event inherits exactly the seats still held against its id. |
| Events.CreateEventAllocated | src/controllers/event.controller.js:8-9 | Creating an event keeps the id discipline, and an id the allocator chooses is never one a live event has. |
| Events.UpdateEventKeepsBooks | src/controllers/event.controller.js:64-68 | An update that writes neither seat counter keeps the books. |
| Events.DeleteAndStatusKeepBooks | src/controllers/event.controller.js:76-95 | Deleting an event and changing a status keep the books of every event that remains. |
| Events.CreateEventSchemaValid | src/models/Event.js:14-25 | A created event is within the schema: the route's checks, the insert's enum check and its check that the trimmed title is not empty together guarantee it. |
| Events.UpdateEventSchemaValid | src/models/Event.js:14-25 | An update keeps the store within the schema, provided the values it writes are within it. |
| Events.DeleteAndStatusSchemaValid | src/models/Event.js:25 | Deleting keeps the schema, and a status change keeps it when the status is in the enum. |
| Events.SeatEditBreaksConservation | src/controllers/event.controller.js:62-68 | There is a store within the schema, and an organizer's update within the schema, that breaks seat conservation by shrinking `totalSeats`. The same update leaves the event with more seats free or held than it has, so even the books are no longer covered. |
| Events.AfterDeleteSound | src/controllers/event.controller.js:78 | The store left after deleting an event with a live booking keeps the id discipline, seat conservation and the schema, and still holds 5 seats against the deleted id. |
| Events.ReuseDraftInserts | src/controllers/event.controller.js:8-9 | A create request within the route's checks that sends the deleted event's `_id` succeeds in that store. |
| Events.ReusedIdOversells | src/controllers/event.controller.js:8-9 | Reusing the `_id` of a deleted event stores an event with more seats held against it than it has, which breaks seat conservation. |
| Catalog.ApprovedOnly | src/controllers/event.controller.js:33 | The listing's filter keeps exactly the approved events and keeps a date-sorted catalog sorted. |
| Catalog.ApprovedOnlyAppend | src/controllers/event.controller.js:33 | The listing's filter distributes over joined catalogs and keeps a single event exactly when it is approved, so it keeps the catalog's order and multiplicity. |
| Catalog.ListApproved | src/controllers/event.controller.js:16-38 | Page defaults to 1 and limit to 20. The store refuses the request exactly when the skip is negative. Otherwise the page is the window of approved events after the skip. It holds only approved events, at most `abs(limit)` of them unless the limit is zero, and stays sorted by date. |
| Catalog.Window | src/controllers/event.controller.js:33 | The page is the contiguous slice of the approved list that starts at the skip. It runs to the end when the limit is zero, and otherwise holds at most `abs(limit)` events. |
| Catalog.PagesTile | src/controllers/event.controller.js:33 | Pages `p` and `p + 1` of the same positive limit, put together, are the window of twice that limit starting where page `p` starts, so paging skips and repeats nothing. |
| Catalog.AllMatching | src/controllers/event.controller.js:100-107 | The search filter keeps exactly the approved events that satisfy every given filter. |
| Catalog.AllMatchingAppend | src/controllers/event.controller.js:100-107 | The search filter distributes over joined catalogs and keeps a single event exactly when it matches, so it keeps the catalog's order and multiplicity. |
| Catalog.Search | src/controllers/event.controller.js:97-113 | A search returns the first `min(100, n)` of the `n` matching events, in order, and only matching approved events. |
| Catalog.ListedAreSearchable | src/controllers/event.controller.js:100 | Every listed event is found by a search with no filters. |
| Catalog.UnfilteredSearchIsListing | src/controllers/event.controller.js:100 | A search with no filters and a text match that accepts everything keeps exactly the events the listing's filter keeps, in the same order. |
| Cleanup.Selected | src/controllers/cleanupPastEvents.js:24-27 | The sweep selects exactly the approved events dated strictly before now. |
| Cleanup.Sweep | src/controllers/cleanupPastEvents.js:15-57 | With nothing selected, the store is unchanged. Otherwise exactly the selected events become `completed`, and exactly the `reserved` reservations of selected events become `cancelled`. No seat counter changes, and nothing else changes. |
| Cleanup.SweepReleasesSelected | src/controllers/cleanupPastEvents.js:39 | After the sweep, no reservation holds seats against a selected event. |
| Cleanup.SweepKeepsUnselected | src/controllers/cleanupPastEvents.js:24-27 | Events the sweep does not select keep their counters and their held seats. |
| Cleanup.SweepStrandsSeats | src/controllers/cleanupPastEvents.js:39-43 | A selected event's counters fall short of its total by the seats that were held: the sweep cancels them without returning them. |
| Cleanup.SweepIdempotent | src/controllers/cleanupPastEvents.js:24-43 | A second sweep at the same time changes nothing. |
| Cleanup.SweepLeavesEnum | src/controllers/cleanupPastEvents.js:43 | A sweep that selects anything writes a status outside the event schema's enum. |
| Cleanup.SweepKeepsCovered | src/controllers/cleanupPastEvents.js:39-43 | The sweep keeps the books covered and never lowers an event's unaccounted seats: it cancels holds and moves no counter. |
| Ledger.NoOversell | src/models/Event.js:22-23 | When the books are covered, the seats held against an event lie between zero and its total, and the free seats never exceed the total. |
| Ledger.ConservedCovered | src/models/Event.js:21-23 | A conserved store within the schema has its books covered. |
| Ledger.BooksConserve | src/controllers/reservation.controller.js:22-34 | A step that keeps the books turns a conserved store into a conserved store. |
| Ledger.BooksCover | src/models/Event.js:21-23 | A step that keeps the books and keeps the counters and reservations within their schema keeps the books covered. |
| Booking.RunConserves | src/controllers/reservation.controller.js:22-26 | Seat conservation and the id discipline hold along every sequence of requests that writes no seat counter, sends no client `_id` and does not run the sweep. |
| Booking.ApplyKeepsBooks | src/controllers/reservation.controller.js:22-34 | Every request that writes no seat counter, sends no client `_id` and is not the sweep keeps the books. |
| Booking.RunSchemaValid | src/models/Event.js:12-28 | The schema's bounds hold along every sequence of requests whose written values are within them and that does not run the sweep. |
| Booking.ApplyCovered | src/controllers/cleanupPastEvents.js:39-43 | One request that is the sweep, or that writes no seat counter and sends no client `_id`, keeps the books covered, whatever values outside the schema it writes. |
| Booking.RunCovered | src/controllers/cleanupPastEvents.js:39-43 | The books stay covered, and the id discipline holds, along every sequence of requests in which each is the sweep or else writes no seat counter and sends no client `_id`. Values outside the schema may be written. |
| Booking.NoOversellFromEmpty | src/controllers/reservation.controller.js:22-31 | Starting from an empty store, no sequence of requests in which each is the sweep or else writes no seat counter and sends no client `_id` ever holds more seats against an event than it has, or leaves it more free seats than its total. Sweeps and unvalidated status, price or title writes are allowed in the sequence. |
| Booking.GuardedIsAnUpdate | src/controllers/event.controller.js:60-74 | The corrected update is the update request as written with the guarded patch, and the guarded patch keeps every restriction on writes that the run invariants ask of the original one, so each of those invariants also holds for runs of corrected updates. |

## Left out

- Email and QR confirmations after a booking are not modelled. They run after the commit, and their failure does not undo the booking.
- The Stripe and PayPal calls are not modelled. The gateway is a parameter that stands for the transaction id they return, or for their absence or failure. The rounding of the amount to cents for the gateway is not modelled.
- Transactions are not modelled. Every handler is modelled as one atomic step. Only the reservation handlers and the sweep use a transaction; the reservation handlers open one only on a replica set (src/controllers/reservation.controller.js:9-10). Without one, a failed reservation insert would leave the seat decrement in place. Other handlers write twice with no session at all, so they are not atomic on any deployment: verify saves the payment and then links reservations (src/controllers/payment.controller.js:67-69), and addItemToCart may create an empty cart and then save the items (src/controllers/cart.controller.js:46-59). The model does not cover a failure between those writes.
- The sweep's connection handling and process exit are not modelled.
- Authentication and role checks are not modelled. Route guards appear only as the `Actor`'s role where a handler reads it.
- Type checks from validators (`isMongoId`, `isString`, ISO dates) are not modelled. They are represented by the Dafny types of the parameters.
- ETag and caching headers on the listing are not modelled. They do not change which events are returned.
- Dashboards, users, contact messages, the activity log and the seed scripts are not part of this model.
- The event fields `description`, `time`, `location` and `imageUrl` are not stored in the model. They are not read by the booking core. The route's length check on `description` and the schema's `required` check on `time` are modelled on the draft, because the first answers 400 and an empty `time` makes the insert fail; `location` and `imageUrl` are not carried by the draft.
- Events.CreateEvent: the route's `isObject` check on `location` (src/routes/event.routes.js:13) is taken to pass, and its `isString` checks on title, description and time are represented by the Dafny types. A body without an object `location` answers 400 in the code; the model does not promise that.
- Events.UpdateEvent: of the update operators a body may carry, only a status inside `$set` is modelled. Other operators (`$inc`, `$unset`, `$push`, seat counters or other fields inside `$set`) are not modelled apart from the plain fields. When a body sends both a top-level and a `$set` status, the model lets the top-level one win; that precedence is a modelling choice.
- Catalog.Search: text and city regex matching is a parameter predicate, not a regular-expression engine.
- The read-only handlers are not modelled: getCart, getMyReservations, getReservationsForEvent, getEventById and getMyPayments.
- Errors from the store or its driver are not modelled, beyond the validation failures named above.
- JavaScript number coercion (strings, `NaN`, fractional quantities) is not modelled. Numbers are unbounded integers; prices are integers, not floating point.
- Catalog.ListApproved: the catalog is given in the store's `date` order, so ties between equal dates are not modelled.
- Booking.RunConserves: the invariant is stated only for runs without seat-counter edits, without client-chosen event ids and without the sweep. For those three cases, `Events.SeatEditBreaksConservation`, `Events.ReusedIdOversells` and `Cleanup.SweepStrandsSeats` show how conservation fails.
- Carts.AddItemKeepsOneItemPerEvent: ids are naturals, so the model does not see that the merge compares ids as strings (src/controllers/cart.controller.js:49) while the validator accepts upper-case hex (src/validators/cart.validator.js:4). An event id sent in upper case would append a second item for an event already in the cart, and the model does not promise otherwise for that case.
- An `_id` in the body of `createEvent` that is not a valid ObjectId fails with a cast error. The model takes client ids as naturals and does not model that failure.
- After a client-chosen id the allocator moves past it. This is a modelling choice that keeps generated ids fresh; ObjectIds are not ordered this way.

## Findings

| source | as written | input that shows it | evidently intended | confidence | as-written member | corrected member |
|---|---|---|---|---|---|---|
| src/controllers/event.controller.js:63 | deletes only the top-level `status` key, so a status inside `$set` reaches the store for an organizer | an organizer's update of their own `pending` event with body `{"$set":{"status":"approved"}}` | only an admin changes an event's status through this route | not executed | Events.OrganizerSelfApproves | Events.UpdateEventGuarded |

The request type of `Booking` keeps the update as written. `Booking.GuardedIsAnUpdate` shows that each corrected update is one such request, so the run lemmas cover runs of corrected updates too.
