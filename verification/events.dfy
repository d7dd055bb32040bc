/** Events and their moderation lifecycle: creation by a user, edits by the
    initiator and by an administrator, the view counter, and the repository
    look-ups the other services use. */
module Events {
  import opened Common
  import Dto

  datatype EventState = Pending | Published | Canceled

  datatype Event = Event(
    title: string,
    annotation: string,
    description: string,
    category: nat,
    eventDate: Instant,
    location: Dto.Location,
    paid: bool,
    participantLimit: int,
    requestModeration: bool,
    state: EventState,
    initiator: nat,
    createdOn: Instant,
    publishedOn: Option<Instant>,
    views: nat)

  type EventStore = map<nat, Event>

  /** `publishedOn` is set only on published events. */
  predicate PublishedOnConsistent(e: Event) {
    e.publishedOn.Some? ==> e.state == Published
  }

  /** The lifecycle's edges: between PENDING and CANCELED freely, from PENDING to
      PUBLISHED, and never out of PUBLISHED. */
  predicate AllowedTransition(from: EventState, to: EventState) {
    from == to || (from != Published && to != Published) || (from == Pending && to == Published)
  }

  /** A date is acceptable when it is not before `now` plus two hours. */
  predicate FarEnoughAhead(date: Instant, now: Instant) {
    date >= now + MinLeadTime
  }

  // ---- creation ----

  function CreateEvent(users: set<nat>, categories: set<nat>, events: EventStore, userId: nat,
                       d: Dto.EventDraft, newId: nat, now: Instant): (r: Result<(EventStore, Event)>)
    requires newId !in events
    ensures userId !in users ==> r == Err(UserNotFound)
    ensures userId in users && d.category !in categories ==> r == Err(CategoryNotFound)
    ensures r.Ok? <==>
      userId in users && d.category in categories && d.participantLimit >= 0 && FarEnoughAhead(d.eventDate, now)
    ensures r.Err? && userId in users && d.category in categories ==> r.error == ValidationRequest
    ensures r.Ok? ==> r.value.0 == events[newId := r.value.1]
    ensures r.Ok? ==>
      var e := r.value.1;
      && e.state == Pending && e.views == 0 && e.initiator == userId
      && e.publishedOn.None? && e.createdOn == now
      && e.title == d.title && e.annotation == d.annotation && e.description == d.description
      && e.category == d.category && e.eventDate == d.eventDate && e.location == d.location
      && e.paid == d.paid && e.participantLimit == d.participantLimit
      && e.requestModeration == d.requestModeration
    ensures r.Ok? ==> PublishedOnConsistent(r.value.1)
  {
    if userId !in users then Err(UserNotFound)
    else if d.category !in categories then Err(CategoryNotFound)
    else if d.participantLimit < 0 then Err(ValidationRequest)
    else if d.eventDate < now + MinLeadTime then Err(ValidationRequest)
    else
      var e := Event(d.title, d.annotation, d.description, d.category, d.eventDate, d.location,
                     d.paid, d.participantLimit, d.requestModeration,
                     Pending, userId, now, None, 0);
      Ok((events[newId := e], e))
  }

  // ---- partial updates ----

  /** An update body: `None` is a null field, which leaves the stored value alone. */
  datatype EventPatch = EventPatch(
    title: Option<string>,
    annotation: Option<string>,
    category: Option<nat>,
    description: Option<string>,
    eventDate: Option<Instant>,
    location: Option<Dto.Location>,
    paid: Option<bool>,
    participantLimit: Option<int>,
    requestModeration: Option<bool>)

  /** `after` is what a nullable update field `o` leaves of the stored value `before`. */
  predicate Patched<T(==)>(o: Option<T>, before: T, after: T) {
    match o
    case None => after == before
    case Some(v) => after == v
  }

  /** Copies every non-null field of the patch onto the event. */
  function ApplyPatch(e: Event, p: EventPatch): (r: Event)
    ensures Patched(p.title, e.title, r.title)
    ensures Patched(p.annotation, e.annotation, r.annotation)
    ensures Patched(p.category, e.category, r.category)
    ensures Patched(p.description, e.description, r.description)
    ensures Patched(p.eventDate, e.eventDate, r.eventDate)
    ensures Patched(p.location, e.location, r.location)
    ensures Patched(p.paid, e.paid, r.paid)
    ensures Patched(p.participantLimit, e.participantLimit, r.participantLimit)
    ensures Patched(p.requestModeration, e.requestModeration, r.requestModeration)
    ensures r.state == e.state && r.initiator == e.initiator && r.createdOn == e.createdOn
    ensures r.publishedOn == e.publishedOn && r.views == e.views
  {
    e.(title := p.title.GetOr(e.title),
       annotation := p.annotation.GetOr(e.annotation),
       category := p.category.GetOr(e.category),
       description := p.description.GetOr(e.description),
       eventDate := p.eventDate.GetOr(e.eventDate),
       location := p.location.GetOr(e.location),
       paid := p.paid.GetOr(e.paid),
       participantLimit := p.participantLimit.GetOr(e.participantLimit),
       requestModeration := p.requestModeration.GetOr(e.requestModeration))
  }

  const NoChange: EventPatch := EventPatch(None, None, None, None, None, None, None, None, None)

  /** An all-null patch changes nothing, and applying a patch twice is applying it once. */
  lemma PatchLaws(e: Event, p: EventPatch)
    ensures ApplyPatch(e, NoChange) == e
    ensures ApplyPatch(ApplyPatch(e, p), p) == ApplyPatch(e, p)
  {
  }

  /** A new date, when given, must be at least two hours ahead. */
  predicate PatchDateOk(p: EventPatch, now: Instant) {
    p.eventDate.Some? ==> FarEnoughAhead(p.eventDate.value, now)
  }

  /** A new limit, when given, must not be negative (the initiator's path only). */
  predicate LimitOk(p: EventPatch) {
    p.participantLimit.Some? ==> p.participantLimit.value >= 0
  }

  /** A new category, when given, must exist. */
  predicate PatchCategoryOk(p: EventPatch, categories: set<nat>) {
    p.category.Some? ==> p.category.value in categories
  }

  // ---- edits by the initiator ----

  datatype UserAction = SendToReview | CancelReview

  /** The state an initiator's action leads to. */
  function UserTarget(s: EventState, action: Option<UserAction>): EventState {
    match action
    case None => s
    case Some(CancelReview) => Canceled
    case Some(SendToReview) => Pending
  }

  /** The user path: only PENDING or CANCELED events can be edited, the new date and
      limit are checked, null fields stay, and the action moves between PENDING and
      CANCELED. The caller is not compared with the initiator. */
  function UpdateEventByUser(users: set<nat>, categories: set<nat>, events: EventStore, userId: nat,
                             eventId: nat, p: EventPatch, action: Option<UserAction>,
                             now: Instant): (r: Result<(EventStore, Event)>)
    ensures userId !in users ==> r == Err(UserNotFound)
    ensures userId in users && eventId !in events ==> r == Err(EventNotFound)
    ensures userId in users && eventId in events && events[eventId].state == Published ==> r == Err(Forbidden)
    // past the state check: the date, then the limit, then the category, each with its kind
    ensures userId in users && eventId in events && events[eventId].state != Published ==>
      && (!PatchDateOk(p, now) ==> r == Err(ValidationRequest))
      && (PatchDateOk(p, now) && !LimitOk(p) ==> r == Err(ValidationRequest))
      && (PatchDateOk(p, now) && LimitOk(p) && !PatchCategoryOk(p, categories) ==> r == Err(CategoryNotFound))
    ensures r.Ok? <==>
      && userId in users && eventId in events && events[eventId].state != Published
      && PatchDateOk(p, now)
      && LimitOk(p)
      && PatchCategoryOk(p, categories)
    ensures r.Ok? ==> r.value.0 == events[eventId := r.value.1]
    ensures r.Ok? ==> r.value.1.(state := events[eventId].state) == ApplyPatch(events[eventId], p)
    ensures r.Ok? ==> action.None? ==> r.value.1.state == events[eventId].state
    ensures r.Ok? ==> action == Some(CancelReview) ==> r.value.1.state == Canceled
    ensures r.Ok? ==> action == Some(SendToReview) ==> r.value.1.state == Pending
    ensures r.Ok? ==> AllowedTransition(events[eventId].state, r.value.1.state)
    ensures r.Ok? && PublishedOnConsistent(events[eventId]) ==> PublishedOnConsistent(r.value.1)
  {
    if userId !in users then Err(UserNotFound)
    else if eventId !in events then Err(EventNotFound)
    else
      var e := events[eventId];
      if e.state != Pending && e.state != Canceled then assert e.state == Published; Err(Forbidden)
      else if p.eventDate.Some? && p.eventDate.value < now + MinLeadTime then Err(ValidationRequest)
      else if p.participantLimit.Some? && p.participantLimit.value < 0 then Err(ValidationRequest)
      else if p.category.Some? && p.category.value !in categories then Err(CategoryNotFound)
      else
        var e' := ApplyPatch(e, p).(state := UserTarget(e.state, action));
        Ok((events[eventId := e'], e'))
  }

  /** The user path never looks at who calls it beyond the caller's existence. */
  lemma UserUpdateIgnoresCaller(users: set<nat>, categories: set<nat>, events: EventStore,
                                u1: nat, u2: nat, eventId: nat, p: EventPatch,
                                action: Option<UserAction>, now: Instant)
    requires u1 in users && u2 in users
    ensures UpdateEventByUser(users, categories, events, u1, eventId, p, action, now)
         == UpdateEventByUser(users, categories, events, u2, eventId, p, action, now)
  {
  }

  // ---- edits by an administrator ----

  datatype AdminAction = PublishEvent | RejectEvent

  /** Publishing needs a PENDING event; rejecting needs an unpublished one. The
      publish path also refuses when `publishedOn` is set and the date is after
      `publishedOn` minus one hour. */
  function ApplyAdminAction(e: Event, a: AdminAction, now: Instant): (r: Result<Event>)
    ensures a == PublishEvent && e.state != Pending ==> r == Err(Forbidden)
    ensures a == PublishEvent ==>
      (r.Ok? <==> e.state == Pending && !(e.publishedOn.Some? && e.eventDate > e.publishedOn.value - Hour))
    ensures a == PublishEvent && r.Ok? ==> r.value == e.(state := Published, publishedOn := Some(now))
    ensures a == RejectEvent ==> (r.Ok? <==> e.state != Published)
    ensures a == RejectEvent && r.Err? ==> r.error == Forbidden
    ensures a == RejectEvent && r.Ok? ==> r.value == e.(state := Canceled)
    ensures r.Ok? ==> AllowedTransition(e.state, r.value.state)
    ensures r.Ok? && PublishedOnConsistent(e) ==> PublishedOnConsistent(r.value)
  {
    match a
    case PublishEvent =>
      if e.state != Pending then Err(Forbidden)
      else if e.publishedOn.Some? && e.eventDate > e.publishedOn.value - Hour then Err(ValidationRequest)
      else Ok(e.(publishedOn := Some(now), state := Published))
    case RejectEvent =>
      if e.state == Published then Err(Forbidden)
      else Ok(e.(state := Canceled))
  }

  /** On an event whose `publishedOn` is consistent, the one-hour publish guard can
      never fire: a PENDING event has no `publishedOn` yet. */
  lemma PublishGuardInert(e: Event, now: Instant)
    requires PublishedOnConsistent(e)
    ensures ApplyAdminAction(e, PublishEvent, now).Ok? <==> e.state == Pending
  {
  }

  /** The admin path: the action first, then the new date; null fields stay. The
      participant limit is copied whatever its sign, in any state. */
  function UpdateEventByAdmin(categories: set<nat>, events: EventStore, eventId: nat, p: EventPatch,
                              action: Option<AdminAction>, now: Instant): (r: Result<(EventStore, Event)>)
    ensures eventId !in events ==> r == Err(EventNotFound)
    ensures r.Ok? <==>
      && eventId in events
      && (action.Some? ==> ApplyAdminAction(events[eventId], action.value, now).Ok?)
      && PatchDateOk(p, now)
      && PatchCategoryOk(p, categories)
    ensures eventId in events && action.Some? && ApplyAdminAction(events[eventId], action.value, now).Err? ==>
      r == ApplyAdminAction(events[eventId], action.value, now).PropagateFailure()
    // past the action: the date, then the category, each with its kind
    ensures eventId in events && (action.Some? ==> ApplyAdminAction(events[eventId], action.value, now).Ok?) ==>
      && (!PatchDateOk(p, now) ==> r == Err(ValidationRequest))
      && (PatchDateOk(p, now) && !PatchCategoryOk(p, categories) ==> r == Err(CategoryNotFound))
    ensures r.Ok? ==> r.value.0 == events[eventId := r.value.1]
    ensures r.Ok? && action.None? ==> r.value.1 == ApplyPatch(events[eventId], p)
    ensures r.Ok? && action.Some? ==>
      r.value.1 == ApplyPatch(ApplyAdminAction(events[eventId], action.value, now).value, p)
    ensures r.Ok? ==> AllowedTransition(events[eventId].state, r.value.1.state)
    ensures r.Ok? && PublishedOnConsistent(events[eventId]) ==> PublishedOnConsistent(r.value.1)
  {
    if eventId !in events then Err(EventNotFound)
    else
      var e := events[eventId];
      var acted :- if action.Some? then ApplyAdminAction(e, action.value, now) else Ok(e);
      if p.eventDate.Some? && p.eventDate.value < now + MinLeadTime then Err(ValidationRequest)
      else if p.category.Some? && p.category.value !in categories then Err(CategoryNotFound)
      else
        var e' := ApplyPatch(acted, p);
        Ok((events[eventId := e'], e'))
  }

  /** No update path takes an event out of PUBLISHED. */
  lemma NothingLeavesPublished(from: EventState, to: EventState)
    requires AllowedTransition(from, to) && from == Published
    ensures to == Published
  {
  }

  // ---- the view counter ----

  /** `UPDATE Event SET views = views + 1 WHERE id = eventId`. */
  function IncrementViews(events: EventStore, eventId: nat): (r: EventStore)
    ensures r.Keys == events.Keys
    ensures eventId in events ==> r[eventId] == events[eventId].(views := events[eventId].views + 1)
    ensures forall id | id in events && id != eventId :: r[id] == events[id]
  {
    if eventId in events then events[eventId := events[eventId].(views := events[eventId].views + 1)]
    else events
  }

  /** `n` increments applied one after another. */
  function IncrementTimes(events: EventStore, eventId: nat, n: nat): EventStore {
    if n == 0 then events else IncrementViews(IncrementTimes(events, eventId, n - 1), eventId)
  }

  /** No increment is lost: `n` increments add exactly `n`, and nothing else changes. */
  lemma {:induction false} IncrementTimesAddsN(events: EventStore, eventId: nat, n: nat)
    requires eventId in events
    ensures var r := IncrementTimes(events, eventId, n);
      && r.Keys == events.Keys
      && r[eventId] == events[eventId].(views := events[eventId].views + n)
      && forall id | id in events && id != eventId :: r[id] == events[id]
  {
    if n > 0 {
      IncrementTimesAddsN(events, eventId, n - 1);
    }
  }

  // ---- repository look-ups ----

  function FindByIdAndState(events: EventStore, eventId: nat, s: EventState): (r: Option<Event>)
    ensures r.Some? <==> eventId in events && events[eventId].state == s
    ensures r.Some? ==> r.value == events[eventId]
  {
    if eventId in events && events[eventId].state == s then Some(events[eventId]) else None
  }

  /** The ids among `{eventId}` that `userId` initiated. */
  function FindByIdAndInitiator(events: EventStore, eventId: nat, userId: nat): (r: set<nat>)
    ensures r <= {eventId}
    ensures eventId in r <==> eventId in events && events[eventId].initiator == userId
  {
    if eventId in events && events[eventId].initiator == userId then {eventId} else {}
  }

  predicate CategoryInUse(events: EventStore, catId: nat) {
    exists id | id in events :: events[id].category == catId
  }

  /** Some event of the category, or null when there is none. */
  ghost function FindFirstByCategory(events: EventStore, catId: nat): (r: Option<nat>)
    ensures r.Some? <==> CategoryInUse(events, catId)
    ensures r.Some? ==> r.value in events && events[r.value].category == catId
  {
    if CategoryInUse(events, catId) then
      var id :| id in events && events[id].category == catId; Some(id)
    else None
  }

  /** A published event's detail: NotFound unless PUBLISHED; counts one view. The
      response carries the event as read before the increment. */
  function GetPublishedEventById(events: EventStore, eventId: nat): (r: Result<(EventStore, Event)>)
    ensures r.Ok? <==> eventId in events && events[eventId].state == Published
    ensures r.Err? ==> r.error == EventNotFound
    ensures r.Ok? ==> r.value.1 == events[eventId]
    ensures r.Ok? ==> r.value.0 == events[eventId := events[eventId].(views := events[eventId].views + 1)]
  {
    match FindByIdAndState(events, eventId, Published)
    case None => Err(EventNotFound)
    case Some(e) => Ok((IncrementViews(events, eventId), e))
  }

  // ---- operation sequences ----

  /** An event-store operation as a client issues it; a create carries the id the
      store will assign. */
  datatype EventOp =
    | CreateOp(userId: nat, d: Dto.EventDraft, newId: nat, now: Instant)
    | UserUpdateOp(userId: nat, eventId: nat, p: EventPatch, userAction: Option<UserAction>, now: Instant)
    | AdminUpdateOp(eventId: nat, p: EventPatch, adminAction: Option<AdminAction>, now: Instant)
    | ViewOp(eventId: nat)

  /** One operation; a failed one, or a create whose id is taken, changes nothing. */
  function Step(users: set<nat>, categories: set<nat>, events: EventStore, op: EventOp): EventStore {
    match op
    case CreateOp(u, d, id, now) =>
      if id in events then events
      else
        var r := CreateEvent(users, categories, events, u, d, id, now);
        if r.Ok? then r.value.0 else events
    case UserUpdateOp(u, id, p, a, now) =>
      var r := UpdateEventByUser(users, categories, events, u, id, p, a, now);
      if r.Ok? then r.value.0 else events
    case AdminUpdateOp(id, p, a, now) =>
      var r := UpdateEventByAdmin(categories, events, id, p, a, now);
      if r.Ok? then r.value.0 else events
    case ViewOp(id) =>
      var r := GetPublishedEventById(events, id);
      if r.Ok? then r.value.0 else events
  }

  function Run(users: set<nat>, categories: set<nat>, events: EventStore, ops: seq<EventOp>): EventStore
    decreases |ops|
  {
    if |ops| == 0 then events else Run(users, categories, Step(users, categories, events, ops[0]), ops[1..])
  }

  predicate AllConsistent(events: EventStore) {
    forall id | id in events :: PublishedOnConsistent(events[id])
  }

  /** One step keeps `publishedOn` consistent and keeps published events published. */
  lemma StepKeepsPublished(users: set<nat>, categories: set<nat>, events: EventStore, op: EventOp)
    requires AllConsistent(events)
    ensures var events' := Step(users, categories, events, op);
      && AllConsistent(events')
      && forall id | id in events && events[id].state == Published :: id in events' && events'[id].state == Published
  {
    var events' := Step(users, categories, events, op);
    forall id | id in events && events[id].state == Published
      ensures id in events' && events'[id].state == Published
    {
      match op
      case CreateOp(_, _, _, _) =>
      case UserUpdateOp(_, _, _, _, _) =>
      case AdminUpdateOp(eid, p, a, now) =>
        if eid == id && UpdateEventByAdmin(categories, events, eid, p, a, now).Ok? {
          NothingLeavesPublished(events[id].state, events'[id].state);
        }
      case ViewOp(_) =>
    }
  }

  /** Over any sequence of operations, `publishedOn` stays set only on published
      events, and a published event stays published. */
  lemma {:induction false} RunKeepsPublished(users: set<nat>, categories: set<nat>, events: EventStore,
                                             ops: seq<EventOp>)
    requires AllConsistent(events)
    ensures var events' := Run(users, categories, events, ops);
      && AllConsistent(events')
      && forall id | id in events && events[id].state == Published :: id in events' && events'[id].state == Published
    decreases |ops|
  {
    if |ops| > 0 {
      StepKeepsPublished(users, categories, events, ops[0]);
      RunKeepsPublished(users, categories, Step(users, categories, events, ops[0]), ops[1..]);
    }
  }
}
