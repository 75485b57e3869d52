/**
 The event-editing handlers (src/controllers/event.controller.js): create, update,
 delete and the admin status change. Only creation touches the seat counters in a
 principled way; an update writes whatever fields the request carries.
 */
module Events {
  import opened Records
  import opened Ledger

  /**
   The request body of createEvent, after the route's type checks. The handler
   copies the whole body, so `id` is the `_id` the client sent, if any, and
   `status` is the status the client sent, if any. `time` is kept only for
   the schema's `required` check and `description` only for the route's length
   check; the event records store neither.
   */
  datatype EventDraft = EventDraft(
    id: Option<Id>,
    title: string,
    description: string,
    category: Category,
    date: int,
    time: string,
    price: int,
    totalSeats: int,
    status: Option<EventStatus>)

  /**
   The route's value checks: a title of at least three characters, a
   description of at least ten, non-negative price and seats.
   */
  predicate DraftPassesValidator(d: EventDraft) {
    |d.title| >= 3 && |d.description| >= 10 && d.price >= 0 && d.totalSeats >= 0
  }

  /** The white space and line terminators that JavaScript's `String.prototype.trim` removes. */
  predicate IsJsSpace(c: char) {
    || c == '\t' || c == '\n' || c == '\U{B}' || c == '\U{C}' || c == '\r' || c == ' '
    || c == '\U{A0}' || c == '\U{1680}' || ('\U{2000}' <= c <= '\U{200A}') || c == '\U{2028}'
    || c == '\U{2029}' || c == '\U{202F}' || c == '\U{205F}' || c == '\U{3000}' || c == '\U{FEFF}'
  }

  /** A string made of white space only, which trimming empties. */
  predicate AllSpace(t: string) {
    forall k :: 0 <= k < |t| ==> IsJsSpace(t[k])
  }

  /** `t` without its leading white space. */
  function TrimStart(t: string): (r: string)
    ensures |r| <= |t| && r == t[|t| - |r|..]
    ensures forall k :: 0 <= k < |t| - |r| ==> IsJsSpace(t[k])
    ensures r != [] ==> !IsJsSpace(r[0])
  {
    if t != [] && IsJsSpace(t[0]) then TrimStart(t[1..]) else t
  }

  /** `t` without its trailing white space. */
  function TrimEnd(t: string): (r: string)
    ensures |r| <= |t| && r == t[..|r|]
    ensures forall k :: |r| <= k < |t| ==> IsJsSpace(t[k])
    ensures r != [] ==> !IsJsSpace(r[|r| - 1])
  {
    if t != [] && IsJsSpace(t[|t| - 1]) then TrimEnd(t[..|t| - 1]) else t
  }

  /**
   The schema's `trim` setter: `t` without leading and trailing white space. It
   leaves nothing exactly when `t` is white space only.
   */
  function Trim(t: string): (r: string)
    ensures |r| <= |t|
    ensures r == [] <==> AllSpace(t)
    ensures r != [] ==> !IsJsSpace(r[0]) && !IsJsSpace(r[|r| - 1])
  {
    TrimEnd(TrimStart(t))
  }

  /** What trimming keeps is one stretch of `t`, with only white space cut off before and after it. */
  lemma TrimCutsOnlySpace(t: string)
    ensures exists i, j :: 0 <= i <= j <= |t| && Trim(t) == t[i..j] && AllSpace(t[..i]) && AllSpace(t[j..])
  {
    var m := TrimStart(t);
    var i, j := |t| - |m|, |t| - |m| + |Trim(t)|;
    assert Trim(t) == m[..|Trim(t)|] == t[i..j];
    SpacePrefix(t, i);
    assert forall k :: |Trim(t)| <= k < |m| ==> IsJsSpace(m[k]);
    assert forall k :: j <= k < |t| ==> t[k] == m[k - i];
    SpaceSuffix(t, j);
  }

  lemma SpacePrefix(t: string, i: int)
    requires 0 <= i <= |t| && forall k :: 0 <= k < i ==> IsJsSpace(t[k])
    ensures AllSpace(t[..i])
  {
    assert forall k :: 0 <= k < i ==> t[..i][k] == t[k];
  }

  lemma SpaceSuffix(t: string, j: int)
    requires 0 <= j <= |t| && forall k :: j <= k < |t| ==> IsJsSpace(t[k])
    ensures AllSpace(t[j..])
  {
    assert forall k :: 0 <= k < |t| - j ==> t[j..][k] == t[j + k];
  }

  /** The id the new event is stored under: the client's `_id` when the body carries one, else a fresh one. */
  function CreatedId(s: Store, d: EventDraft): Id {
    d.id.GetOr(s.nextId)
  }

  /**
   Why the insert of a draft that passed the route's checks fails: its status is
   outside the schema's enum, trimming empties its required title, its required
   `time` is the empty string (which the route's `isString` lets through), or
   its id is taken (a duplicate key).
   */
  predicate InsertFails(s: Store, d: EventDraft) {
    d.status == Some(Completed) || AllSpace(d.title) || d.time == "" || CreatedId(s, d) in s.events
  }

  /**
   Create an event for `actor`. Failing the route's checks answers 400. The
   insert fails with 500 when the document breaks the schema (a status outside
   the enum, a title that trimming empties, or an empty `time`) and when its `_id` is already
   taken, which only a client-supplied `_id` can be. The organizer is the requester, and all seats start free.
   */
  function CreateEvent(s: Store, actor: Actor, d: EventDraft): (r: Reply)
    ensures r.outcome == BadRequest <==> !DraftPassesValidator(d)
    ensures r.outcome == ServerError <==> DraftPassesValidator(d) && InsertFails(s, d)
    ensures r.outcome == Ok <==> DraftPassesValidator(d) && !InsertFails(s, d)
    ensures r.outcome != Ok ==> r.store == s
    ensures r.outcome == Ok ==>
      && var id := CreatedId(s, d);
         && id !in s.events
         && r.store.events.Keys == s.events.Keys + {id}
         && (forall e :: e in s.events ==> r.store.events[e] == s.events[e])
         && s.nextId <= r.store.nextId && id < r.store.nextId
         && (d.id.None? ==> r.store.nextId == s.nextId + 1)
         && var ev := r.store.events[id];
            && ev.organizerId == actor.id
            && ev.availableSeats == ev.totalSeats == d.totalSeats
            && ev.status == d.status.GetOr(Pending)
            && ev.title == Trim(d.title)
            && ev.price == d.price && ev.date == d.date && ev.category == d.category
            && ValidEvent(ev)
    ensures r.store.reservations == s.reservations && r.store.payments == s.payments && r.store.carts == s.carts
  {
    if !DraftPassesValidator(d) then
      Reply(s, BadRequest)
    else if InsertFails(s, d) then
      Reply(s, ServerError)
    else
      var id := CreatedId(s, d);
      var ev := Event(actor.id, Trim(d.title), d.category, d.date, d.price, d.totalSeats, d.totalSeats,
                      d.status.GetOr(Pending));
      assert ValidEvent(ev);
      Reply(s.(events := s.events[id := ev], nextId := if id < s.nextId then s.nextId else id + 1), Ok)
  }

  /**
   The fields an update may carry; no validator runs on them. The handler
   passes the body to `findOneAndUpdate` as it came, and no sanitizer strips
   keys that start with `$`, so a body may also carry a `$set` operator.
   `setStatus` is the status sent inside `$set`, which Mongoose writes like a
   field. The seat counters and the other fields are reached by plain fields
   already, so only the status is kept apart.
   */
  datatype EventPatch = EventPatch(
    organizerId: Option<UserId>,
    title: Option<string>,
    category: Option<Category>,
    date: Option<int>,
    price: Option<int>,
    totalSeats: Option<int>,
    availableSeats: Option<int>,
    status: Option<EventStatus>,
    setStatus: Option<EventStatus>)

  /**
   The event with every field the patch carries overwritten. The schema's `trim`
   setter also runs on updates, so a sent title is stored trimmed. A plain
   `status` wins over one inside `$set` when a body carries both.
   */
  function Patched(e: Event, p: EventPatch): Event {
    Event(p.organizerId.GetOr(e.organizerId), if p.title.Some? then Trim(p.title.value) else e.title,
          p.category.GetOr(e.category),
          p.date.GetOr(e.date), p.price.GetOr(e.price), p.totalSeats.GetOr(e.totalSeats),
          p.availableSeats.GetOr(e.availableSeats), p.status.GetOr(p.setStatus.GetOr(e.status)))
  }

  /** The filter of update and delete: an organizer reaches only their own events, anyone else any event. */
  predicate MayEdit(s: Store, actor: Actor, id: Id) {
    id in s.events && (actor.role == Organizer ==> s.events[id].organizerId == actor.id)
  }

  /**
   The patch with the top-level status dropped unless the requester is an
   admin. Only that key is deleted: a status inside `$set` is kept for everyone.
   */
  function Stripped(actor: Actor, p: EventPatch): (r: EventPatch)
    ensures actor.role != Admin ==> r.status.None?
    ensures actor.role == Admin ==> r == p
    ensures r.setStatus == p.setStatus
    ensures r.(status := p.status) == p
  {
    if actor.role != Admin then p.(status := None) else p
  }

  /**
   Update event `id` with `p`: 404 without any change when the filter does not
   match. Anyone but an admin changes the status only through `$set`.
   */
  function UpdateEvent(s: Store, actor: Actor, id: Id, p: EventPatch): (r: Reply)
    ensures r.outcome == NotFound <==> !MayEdit(s, actor, id)
    ensures r.outcome != NotFound ==> r.outcome == Ok
    ensures r.outcome == NotFound ==> r.store == s
    ensures r.outcome == Ok ==>
      && r.store.events.Keys == s.events.Keys
      && (forall e :: e in s.events && e != id ==> r.store.events[e] == s.events[e])
      && (actor.role != Admin ==> r.store.events[id].status == p.setStatus.GetOr(s.events[id].status))
      && (actor.role == Admin ==>
            r.store.events[id].status == p.status.GetOr(p.setStatus.GetOr(s.events[id].status)))
      && r.store.events[id] == Patched(s.events[id], Stripped(actor, p))
    ensures r.store.reservations == s.reservations && r.store.payments == s.payments
    ensures r.store.carts == s.carts && r.store.nextId == s.nextId
  {
    if !MayEdit(s, actor, id) then
      Reply(s, NotFound)
    else
      Reply(s.(events := s.events[id := Patched(s.events[id], Stripped(actor, p))]), Ok)
  }

  /** What the status guard evidently means to do: drop every status, plain or inside `$set`, unless the requester is an admin. */
  function GuardedStripped(actor: Actor, p: EventPatch): (r: EventPatch)
    ensures actor.role != Admin ==> r.status.None? && r.setStatus.None?
    ensures actor.role == Admin ==> r == p
    ensures r.(status := p.status, setStatus := p.setStatus) == p
  {
    if actor.role != Admin then p.(status := None, setStatus := None) else p
  }

  /**
   The update with the guard corrected. It is an update as written, of the
   guarded patch, so it answers as the update does, agrees with it on bodies
   without `$set`, and never lets anyone but an admin change a status.
   */
  function UpdateEventGuarded(s: Store, actor: Actor, id: Id, p: EventPatch): (r: Reply)
    ensures r.outcome == UpdateEvent(s, actor, id, p).outcome
    ensures r.outcome == Ok ==> id in s.events && id in r.store.events
    ensures r.outcome == Ok && actor.role != Admin ==> r.store.events[id].status == s.events[id].status
    ensures p.setStatus.None? || actor.role == Admin ==> r == UpdateEvent(s, actor, id, p)
  {
    UpdateEvent(s, actor, id, GuardedStripped(actor, p))
  }

  /** Delete event `id`; reservations, payments and cart items naming it are left in place. */
  function DeleteEvent(s: Store, actor: Actor, id: Id): (r: Reply)
    ensures r.outcome == NotFound <==> !MayEdit(s, actor, id)
    ensures r.outcome != NotFound ==> r.outcome == Ok
    ensures r.outcome == NotFound ==> r.store == s
    ensures r.outcome == Ok ==> r.store.events.Keys == s.events.Keys - {id}
    ensures forall e :: e in r.store.events ==> e in s.events && r.store.events[e] == s.events[e]
    ensures r.store.reservations == s.reservations && r.store.payments == s.payments
    ensures r.store.carts == s.carts && r.store.nextId == s.nextId
  {
    if !MayEdit(s, actor, id) then Reply(s, NotFound)
    else Reply(s.(events := s.events - {id}), Ok)
  }

  /**
   Set the status of event `id`. The handler never reads the route's validation
   result, so any status is written; an absent status makes the update empty.
   */
  function UpdateEventStatus(s: Store, id: Id, status: Option<EventStatus>): (r: Reply)
    ensures r.outcome == NotFound <==> id !in s.events
    ensures r.outcome != NotFound ==> r.outcome == Ok
    ensures r.outcome == NotFound || status.None? ==> r.store == s
    ensures r.outcome == Ok && status.Some? ==>
      r.store.events == s.events[id := s.events[id].(status := status.value)]
    ensures r.store.reservations == s.reservations && r.store.payments == s.payments
    ensures r.store.carts == s.carts && r.store.nextId == s.nextId
  {
    if id !in s.events then Reply(s, NotFound)
    else if status.None? then Reply(s, Ok)
    else Reply(s.(events := s.events[id := s.events[id].(status := status.value)]), Ok)
  }

  // ------------------------------------------------------------------ lemmas

  /**
   Creating an event keeps the books exactly when nothing is held against the
   id it is stored under. A fresh id never has anything held against it, but a
   client-supplied `_id` of a deleted event brings that event's bookings along.
   */
  lemma CreateEventKeepsBooks(s: Store, actor: Actor, d: EventDraft)
    requires Allocated(s)
    ensures KeepsBooks(s, CreateEvent(s, actor, d).store) <==>
      CreateEvent(s, actor, d).outcome != Ok || SeatsHeld(s, CreatedId(s, d)) == 0
    ensures CreatedId(s, d) >= s.nextId ==> KeepsBooks(s, CreateEvent(s, actor, d).store)
    ensures CreateEvent(s, actor, d).outcome == Ok ==>
      SeatsHeld(CreateEvent(s, actor, d).store, CreatedId(s, d)) == SeatsHeld(s, CreatedId(s, d))
  {
    var r := CreateEvent(s, actor, d);
    var k := CreatedId(s, d);
    if k >= s.nextId {
      FreshHoldsNothing(s, k);
    }
    if r.outcome == Ok {
      CreatedHoldsSame(s, actor, d);
      assert Unaccounted(r.store, k) == - SeatsHeld(s, k);
    }
  }

  /** An insert touches no reservation, so every event holds what it held before. */
  lemma CreatedHoldsSame(s: Store, actor: Actor, d: EventDraft)
    requires Allocated(s) && CreateEvent(s, actor, d).outcome == Ok
    ensures forall e :: SeatsHeld(CreateEvent(s, actor, d).store, e) == SeatsHeld(s, e)
  {
    var s' := CreateEvent(s, actor, d).store;
    assert s'.reservations == s.reservations && s.nextId <= s'.nextId;
    forall e
      ensures SeatsHeld(s', e) == SeatsHeld(s, e)
    {
      HeldExtend(s.reservations, e, s.nextId, s'.nextId);
    }
  }

  /**
   Creating an event moves the allocator past the id it is stored under; an id
   the store hands out itself is never taken already.
   */
  lemma CreateEventAllocated(s: Store, actor: Actor, d: EventDraft)
    requires Allocated(s)
    ensures Allocated(CreateEvent(s, actor, d).store)
    ensures d.id.None? ==> CreatedId(s, d) !in s.events
  {
  }

  /** Updating, deleting and re-statusing events allocate nothing. */
  lemma EventEditsAllocated(s: Store, actor: Actor, id: Id, p: EventPatch, status: Option<EventStatus>)
    requires Allocated(s)
    ensures Allocated(UpdateEvent(s, actor, id, p).store)
    ensures Allocated(DeleteEvent(s, actor, id).store)
    ensures Allocated(UpdateEventStatus(s, id, status).store)
  {
  }

  /** A patch that leaves both seat counters alone. */
  predicate SeatNeutral(p: EventPatch) {
    p.totalSeats.None? && p.availableSeats.None?
  }

  /** Updates that leave the seat counters alone keep the books. */
  lemma UpdateEventKeepsBooks(s: Store, actor: Actor, id: Id, p: EventPatch)
    requires Allocated(s) && SeatNeutral(p)
    ensures KeepsBooks(s, UpdateEvent(s, actor, id, p).store)
  {
    BooksFrame(s, UpdateEvent(s, actor, id, p).store);
  }

  /** Deleting an event and changing a status move no seat. */
  lemma DeleteAndStatusKeepBooks(s: Store, actor: Actor, id: Id, status: Option<EventStatus>)
    requires Allocated(s)
    ensures KeepsBooks(s, DeleteEvent(s, actor, id).store)
    ensures KeepsBooks(s, UpdateEventStatus(s, id, status).store)
  {
    BooksFrame(s, DeleteEvent(s, actor, id).store);
    BooksFrame(s, UpdateEventStatus(s, id, status).store);
  }

  /** A patch whose values the schema would accept (no validator checks this on update). */
  predicate PatchWithinSchema(p: EventPatch) {
    && (p.title.Some? ==> !AllSpace(p.title.value))
    && (p.price.Some? ==> p.price.value >= 0)
    && (p.totalSeats.Some? ==> p.totalSeats.value >= 0)
    && (p.availableSeats.Some? ==> p.availableSeats.value >= 0)
    && (p.status.Some? ==> InEventEnum(p.status.value))
    && (p.setStatus.Some? ==> InEventEnum(p.setStatus.value))
  }

  /** A created event is within the schema: the route's checks and the insert's enum check see to it. */
  lemma CreateEventSchemaValid(s: Store, actor: Actor, d: EventDraft)
    requires SchemaValid(s)
    ensures SchemaValid(CreateEvent(s, actor, d).store)
  {
  }

  /** An update keeps the store within the schema as long as the values it writes are within it. */
  lemma UpdateEventSchemaValid(s: Store, actor: Actor, id: Id, p: EventPatch)
    requires SchemaValid(s) && PatchWithinSchema(p)
    ensures SchemaValid(UpdateEvent(s, actor, id, p).store)
  {
    if MayEdit(s, actor, id) {
      assert ValidEvent(s.events[id]);
    }
  }

  /** Deleting keeps the schema; a status change does when the status is in the enum. */
  lemma DeleteAndStatusSchemaValid(s: Store, actor: Actor, id: Id, status: Option<EventStatus>)
    requires SchemaValid(s)
    requires status.Some? ==> InEventEnum(status.value)
    ensures SchemaValid(DeleteEvent(s, actor, id).store)
    ensures SchemaValid(UpdateEventStatus(s, id, status).store)
  {
    if id in s.events {
      assert ValidEvent(s.events[id]);
    }
  }

  /**
   An organizer who edits the seat counters breaks the seat invariant: shrinking
   `totalSeats` under held seats leaves the counters unbalanced, and even the
   weaker bound fails, with more seats free or held than the event has.
   */
  lemma SeatEditBreaksConservation()
    ensures exists s: Store, actor: Actor, id: Id, p: EventPatch ::
      && Allocated(s) && Conserved(s) && SchemaValid(s) && PatchWithinSchema(p)
      && UpdateEvent(s, actor, id, p).outcome == Ok
      && !Conserved(UpdateEvent(s, actor, id, p).store)
      && !Covered(UpdateEvent(s, actor, id, p).store)
  {
    var ev := Event(7, "Gig", Music, 0, 10, 5, 3, Approved);
    var res := Reservation(0, 1, 2, 20, Reserved, None);
    var s := Store(map[0 := ev], map[1 := res], map[], map[], 2);
    var actor := Actor(7, Organizer);
    var p := EventPatch(None, None, None, None, None, Some(3), None, None, None);
    assert HeldBy(s.reservations, 1, 0) == 2;
    assert SeatsHeld(s, 0) == 2;
    var s' := UpdateEvent(s, actor, 0, p).store;
    assert SeatsHeld(s', 0) == 2;
    assert s'.events[0].availableSeats + SeatsHeld(s', 0) != s'.events[0].totalSeats;
    assert Unaccounted(s', 0) < 0;
  }

  /** A store with one pending event, owned by user 7. */
  const PendingStore := Store(map[0 := Event(7, "Gig", Music, 0, 10, 5, 5, Pending)], map[], map[], map[], 1)

  /** An update body that carries nothing but `{"$set": {"status": "approved"}}`. */
  const SetApproved := EventPatch(None, None, None, None, None, None, None, None, Some(Approved))

  /**
   The status guard deletes only the top-level key: an organizer who sends the
   status inside `$set` approves their own pending event.
   */
  lemma OrganizerSelfApproves()
    ensures PendingStore.events[0].status == Pending
    ensures Stripped(Actor(7, Organizer), SetApproved) == SetApproved
    ensures UpdateEvent(PendingStore, Actor(7, Organizer), 0, SetApproved).outcome == Ok
    ensures UpdateEvent(PendingStore, Actor(7, Organizer), 0, SetApproved).store.events[0].status == Approved
  {
  }

  /** With the guard corrected, the same request is served but the event stays pending. */
  lemma GuardedKeepsPending()
    ensures UpdateEventGuarded(PendingStore, Actor(7, Organizer), 0, SetApproved).outcome == Ok
    ensures UpdateEventGuarded(PendingStore, Actor(7, Organizer), 0, SetApproved).store.events[0].status == Pending
  {
  }

  /** A store whose event 0 has been deleted while a booking of five of its seats is still reserved. */
  const AfterDelete := Store(map[], map[1 := Reservation(0, 1, 5, 50, Reserved, None)], map[], map[], 2)

  /** A well-formed draft carrying the deleted event's id and no seats. */
  const ReuseDraft := EventDraft(Some(0), "Gig", "An evening gig", Music, 0, "20:00", 10, 0, None)

  /** The store after the delete is a sound one: conserved, within the schema, ids allocated. */
  lemma AfterDeleteSound()
    ensures Allocated(AfterDelete) && Conserved(AfterDelete) && SchemaValid(AfterDelete)
    ensures SeatsHeld(AfterDelete, 0) == 5
  {
    assert Held(AfterDelete.reservations, 0, 1) == 0;
  }

  /** The insert of the reusing draft succeeds: its title is not blank and the id is free again. */
  lemma ReuseDraftInserts()
    ensures CreateEvent(AfterDelete, Actor(7, Organizer), ReuseDraft).outcome == Ok
  {
    assert !IsJsSpace(ReuseDraft.title[0]);
    assert DraftPassesValidator(ReuseDraft) && !InsertFails(AfterDelete, ReuseDraft);
  }

  /**
   Reusing the `_id` of a deleted event oversells the new event: the old
   event's bookings, left in place by the delete, now hold more seats than the
   new event has.
   */
  lemma ReusedIdOversells()
    ensures CreateEvent(AfterDelete, Actor(7, Organizer), ReuseDraft).outcome == Ok
    ensures var s' := CreateEvent(AfterDelete, Actor(7, Organizer), ReuseDraft).store;
      SeatsHeld(s', 0) > s'.events[0].totalSeats && !Conserved(s')
  {
    AfterDeleteSound();
    ReuseDraftInserts();
    CreateEventKeepsBooks(AfterDelete, Actor(7, Organizer), ReuseDraft);
  }
}
