/** Participation-request admission: creating a request against the four guards,
    cancelling it, listing requests, and the initiator's batch confirm/reject walk
    with its cascade. The capacity invariant — an event with a positive limit never
    has more CONFIRMED requests than the limit — is proved for every request
    operation against a fixed event store; an administrator's edit of the limit
    can break it (`AdminLimitEditBreaksCapacity`). */
module RequestService {
  import opened Common
  import opened RequestStore
  import E = Events
  import Dto

  /** For every event with a positive limit, its confirmed requests fit within it. */
  predicate CapacityOk(events: E.EventStore, rs: RequestStore) {
    forall e | e in events && events[e].participantLimit > 0 :: ConfirmedCount(rs, e) <= events[e].participantLimit
  }

  /** No request is made by the initiator of its own event. */
  predicate NoSelfRequests(events: E.EventStore, rs: RequestStore) {
    forall id | id in rs && rs[id].event in events :: rs[id].requester != events[rs[id].event].initiator
  }

  // ---- creating a request ----

  /** A new request is confirmed straight away when moderation is off or the event
      is unlimited, and waits otherwise. */
  function InitialStatus(ev: E.Event): RequestStatus {
    if !ev.requestModeration || ev.participantLimit == 0 then Confirmed else Pending
  }

  /** The capacity guard: with a non-zero limit the confirmed count must be below it. */
  predicate HasRoom(rs: RequestStore, eventId: nat, ev: E.Event) {
    ev.participantLimit == 0 || ConfirmedCount(rs, eventId) < ev.participantLimit
  }

  function CreateRequest(users: set<nat>, events: E.EventStore, rs: RequestStore, userId: nat,
                         eventId: nat, newId: nat, now: Instant): (r: Result<(RequestStore, Request)>)
    requires newId !in rs
    ensures userId !in users ==> r == Err(UserNotFound)
    ensures userId in users && eventId !in events ==> r == Err(EventNotFound)
    ensures userId in users && eventId in events && r.Err? ==> r.error == Forbidden
    // the duplicate guard matches a request in any status, CANCELED included
    ensures userId in users && eventId in events && ExistsForRequesterAndEvent(rs, userId, eventId) ==> r.Err?
    ensures r.Ok? <==>
      && userId in users && eventId in events
      && !ExistsForRequesterAndEvent(rs, userId, eventId)
      && events[eventId].initiator != userId
      && events[eventId].state == E.Published
      && HasRoom(rs, eventId, events[eventId])
    ensures r.Ok? ==> r.value.0 == rs[newId := r.value.1]
    ensures r.Ok? ==> r.value.1.event == eventId && r.value.1.requester == userId && r.value.1.created == now
    ensures r.Ok? ==>
      (r.value.1.status == Confirmed <==> !events[eventId].requestModeration || events[eventId].participantLimit == 0)
    ensures r.Ok? ==> r.value.1.status in {Confirmed, Pending}
  {
    if userId !in users then Err(UserNotFound)
    else if eventId !in events then Err(EventNotFound)
    else
      var ev := events[eventId];
      if ExistsForRequesterAndEvent(rs, userId, eventId) then Err(Forbidden)
      else if ev.initiator == userId then Err(Forbidden)
      else if ev.state != E.Published then Err(Forbidden)
      else if ev.participantLimit != 0 && ConfirmedCount(rs, eventId) >= ev.participantLimit then Err(Forbidden)
      else
        var q := Request(eventId, userId, InitialStatus(ev), now);
        Ok((rs[newId := q], q))
  }

  /** The guards are tried in the source's order: duplicate, own event, unpublished, full. */
  lemma CreateGuardOrder(users: set<nat>, events: E.EventStore, rs: RequestStore, userId: nat,
                         eventId: nat, newId: nat, now: Instant)
    requires newId !in rs && userId in users && eventId in events
    ensures var r := CreateRequest(users, events, rs, userId, eventId, newId, now);
      && (ExistsForRequesterAndEvent(rs, userId, eventId) ==> r == Err(Forbidden))
      && (events[eventId].initiator == userId ==> r == Err(Forbidden))
      && (events[eventId].state != E.Published ==> r == Err(Forbidden))
      && (events[eventId].participantLimit < 0 ==> r == Err(Forbidden))
  {
  }

  /** A successful create keeps every event within its limit. */
  lemma CreateKeepsCapacity(users: set<nat>, events: E.EventStore, rs: RequestStore, userId: nat,
                            eventId: nat, newId: nat, now: Instant)
    requires newId !in rs && CapacityOk(events, rs)
    requires CreateRequest(users, events, rs, userId, eventId, newId, now).Ok?
    ensures CapacityOk(events, CreateRequest(users, events, rs, userId, eventId, newId, now).value.0)
  {
    var (rs', q) := CreateRequest(users, events, rs, userId, eventId, newId, now).value;
    forall e | e in events && events[e].participantLimit > 0
      ensures ConfirmedCount(rs', e) <= events[e].participantLimit
    {
      CountAfterWrite(rs, newId, q, e, Confirmed);
    }
  }

  /** A successful create keeps requests unique per (requester, event) and never
      lets an initiator into their own event. */
  lemma CreateKeepsUniqueness(users: set<nat>, events: E.EventStore, rs: RequestStore, userId: nat,
                              eventId: nat, newId: nat, now: Instant)
    requires newId !in rs && UniquePairs(rs) && NoSelfRequests(events, rs)
    requires CreateRequest(users, events, rs, userId, eventId, newId, now).Ok?
    ensures UniquePairs(CreateRequest(users, events, rs, userId, eventId, newId, now).value.0)
    ensures NoSelfRequests(events, CreateRequest(users, events, rs, userId, eventId, newId, now).value.0)
  {
    var rs' := CreateRequest(users, events, rs, userId, eventId, newId, now).value.0;
    forall a, b | a in rs' && b in rs' && a != b
      ensures !(rs'[a].requester == rs'[b].requester && rs'[a].event == rs'[b].event)
    {
      if a == newId {
        assert b in rs;
      } else if b == newId {
        assert a in rs;
      }
    }
  }

  // ---- cancelling a request ----

  /** Cancel: the caller must exist; the request, whoever made it, becomes CANCELED.
      A missing request surfaces when the lazy reference is first used. */
  function CancelRequest(users: set<nat>, rs: RequestStore, userId: nat, requestId: nat): (r: Result<(RequestStore, Request)>)
    ensures userId !in users ==> r == Err(UserNotFound)
    ensures userId in users && requestId !in rs ==> r == Err(EntityNotFound)
    ensures r.Ok? <==> userId in users && requestId in rs
    ensures r.Ok? ==> r.value.1 == rs[requestId].(status := Canceled)
    ensures r.Ok? ==> r.value.0.Keys == rs.Keys && r.value.0[requestId] == r.value.1
    ensures r.Ok? ==> forall id | id in rs && id != requestId :: r.value.0[id] == rs[id]
    ensures r.Ok? ==> SameExceptStatus(rs, r.value.0)
  {
    if userId !in users then Err(UserNotFound)
    else if requestId !in rs then Err(EntityNotFound)
    else
      var q := rs[requestId].(status := Canceled);
      Ok((rs[requestId := q], q))
  }

  /** Cancelling twice is cancelling once, and any registered user may cancel. */
  lemma CancelIdempotent(users: set<nat>, rs: RequestStore, u1: nat, u2: nat, requestId: nat)
    requires u1 in users && u2 in users && requestId in rs
    ensures var once := CancelRequest(users, rs, u1, requestId).value;
      CancelRequest(users, once.0, u2, requestId) == Ok(once)
  {
    var once := CancelRequest(users, rs, u1, requestId).value;
    assert once.1.(status := Canceled) == once.1;
    assert once.0[requestId := once.1] == once.0;
  }

  /** Cancelling never raises a confirmed count. */
  lemma CancelKeepsCapacity(users: set<nat>, events: E.EventStore, rs: RequestStore, userId: nat, requestId: nat)
    requires CapacityOk(events, rs) && CancelRequest(users, rs, userId, requestId).Ok?
    ensures CapacityOk(events, CancelRequest(users, rs, userId, requestId).value.0)
  {
    var (rs', q) := CancelRequest(users, rs, userId, requestId).value;
    forall e | e in events && events[e].participantLimit > 0
      ensures ConfirmedCount(rs', e) <= events[e].participantLimit
    {
      CountAfterWrite(rs, requestId, q, e, Confirmed);
    }
  }

  // ---- listing ----

  /** A user's own requests. */
  function GetParticipationRequests(users: set<nat>, rs: RequestStore, userId: nat): (r: Result<set<nat>>)
    ensures r.Ok? <==> userId in users
    ensures r.Err? ==> r.error == UserNotFound
    ensures r.Ok? ==> forall id :: id in r.value <==> id in rs && rs[id].requester == userId
  {
    if userId !in users then Err(UserNotFound) else Ok(FindByRequester(rs, userId))
  }

  /** The requests of an event, as seen by its initiator; anyone else sees none. */
  function GetRequestsForUserEvent(users: set<nat>, events: E.EventStore, rs: RequestStore,
                                   userId: nat, eventId: nat): (r: Result<set<nat>>)
    ensures r.Ok? <==> userId in users
    ensures r.Err? ==> r.error == UserNotFound
    ensures r.Ok? && eventId in events && events[eventId].initiator == userId ==>
      forall id :: id in r.value <==> id in rs && rs[id].event == eventId
    ensures r.Ok? && !(eventId in events && events[eventId].initiator == userId) ==> r.value == {}
  {
    if userId !in users then Err(UserNotFound)
    else Ok(FindByEventIn(rs, E.FindByIdAndInitiator(events, eventId, userId)))
  }

  // ---- the batch confirm/reject walk ----

  /** Every id names a stored request. */
  predicate AllIn(ids: seq<nat>, rs: RequestStore) {
    forall i | 0 <= i < |ids| :: ids[i] in rs
  }

  predicate Distinct(ids: seq<nat>) {
    forall i, j | 0 <= i < j < |ids| :: ids[i] != ids[j]
  }

  predicate AllPending(rs: RequestStore, ids: seq<nat>)
    requires AllIn(ids, rs)
  {
    forall i | 0 <= i < |ids| :: rs[ids[i]].status == Pending
  }

  /** Every id names a request of `eventId`. */
  predicate AllOfEvent(rs: RequestStore, ids: seq<nat>, eventId: nat)
    requires AllIn(ids, rs)
  {
    forall i | 0 <= i < |ids| :: rs[ids[i]].event == eventId
  }

  /** How many of `n` requests a walk starting at `count` under `limit` confirms. */
  function Slots(count: int, limit: int, n: nat): (k: nat)
    ensures k <= n
    ensures count >= limit ==> k == 0
    ensures count < limit ==> k == n || count + k == limit
    ensures count <= limit ==> count + k <= limit
  {
    if count >= limit then 0 else if limit - count < n then limit - count else n
  }

  datatype WalkOut = WalkOut(store: RequestStore, confirmed: seq<nat>, rejected: seq<nat>, count: int)

  /** Walks the fetched requests in order: a request that is not PENDING fails the
      whole walk; otherwise it is confirmed while `count < limit` and rejected after.
      The store is updated as the walk goes, so an id met twice fails the second time. */
  function Walk(rs: RequestStore, ids: seq<nat>, count: int, limit: int): (r: Result<WalkOut>)
    requires AllIn(ids, rs)
    ensures r.Ok? <==> AllPending(rs, ids) && Distinct(ids)
    ensures r.Err? ==> r.error == Forbidden
    ensures r.Ok? ==>
      var k := Slots(count, limit, |ids|);
      && r.value.confirmed == ids[..k]
      && r.value.rejected == ids[k..]
      && r.value.count == count + k
    decreases |ids|
  {
    if |ids| == 0 then Ok(WalkOut(rs, [], [], count))
    else
      var id := ids[0];
      if rs[id].status != Pending then Err(Forbidden)
      else
        var status := if count < limit then Confirmed else Rejected;
        var rs' := rs[id := rs[id].(status := status)];
        var r' := Walk(rs', ids[1..], if count < limit then count + 1 else count, limit);
        WalkStep(rs, ids, rs', status);
        match r'
        case Err(e) => Err(e)
        case Ok(w) =>
          if count < limit then Ok(w.(confirmed := [id] + w.confirmed))
          else Ok(w.(rejected := [id] + w.rejected))
  }

  /** A successful walk keeps the store's ids and leaves every request it does not
      name as it was. */
  lemma {:induction false} WalkFrame(rs: RequestStore, ids: seq<nat>, count: int, limit: int)
    requires AllIn(ids, rs) && Walk(rs, ids, count, limit).Ok?
    ensures var w := Walk(rs, ids, count, limit).value;
      && w.store.Keys == rs.Keys
      && forall id | id in rs && id !in ids :: w.store[id] == rs[id]
    decreases |ids|
  {
    if |ids| > 0 {
      var status := if count < limit then Confirmed else Rejected;
      var rs' := rs[ids[0] := rs[ids[0]].(status := status)];
      WalkStep(rs, ids, rs', status);
      WalkFrame(rs', ids[1..], if count < limit then count + 1 else count, limit);
      forall id | id in rs && id !in ids ensures Walk(rs, ids, count, limit).value.store[id] == rs[id] {
        assert id !in ids[1..];
      }
    }
  }

  /** A successful walk gives each named request the status its position earns:
      CONFIRMED for the first `Slots` of them, REJECTED after. */
  lemma {:induction false} WalkPositions(rs: RequestStore, ids: seq<nat>, count: int, limit: int)
    requires AllIn(ids, rs) && Walk(rs, ids, count, limit).Ok?
    ensures var w := Walk(rs, ids, count, limit).value;
      forall i | 0 <= i < |ids| ::
        Became(rs, w.store, ids[i], if i < Slots(count, limit, |ids|) then Confirmed else Rejected)
    decreases |ids|
  {
    if |ids| > 0 {
      var id := ids[0];
      var status := if count < limit then Confirmed else Rejected;
      var rs' := rs[id := rs[id].(status := status)];
      var count' := if count < limit then count + 1 else count;
      WalkStep(rs, ids, rs', status);
      WalkPositions(rs', ids[1..], count', limit);
      WalkFrame(rs', ids[1..], count', limit);
      var w := Walk(rs, ids, count, limit).value;
      var k' := Slots(count', limit, |ids| - 1);
      assert Slots(count, limit, |ids|) == if count < limit then k' + 1 else k';
      assert id !in ids[1..];
      forall i | 0 < i < |ids|
        ensures Became(rs, w.store, ids[i], if i < Slots(count, limit, |ids|) then Confirmed else Rejected)
      {
        assert ids[i] == ids[1..][i - 1] && ids[i] != id;
      }
    }
  }

  /** The step of `Walk`: after the head is taken out of PENDING, the tail is all
      pending and distinct exactly when the whole was. */
  lemma WalkStep(rs: RequestStore, ids: seq<nat>, rs': RequestStore, status: RequestStatus)
    requires AllIn(ids, rs) && |ids| > 0 && rs[ids[0]].status == Pending && status != Pending
    requires rs' == rs[ids[0] := rs[ids[0]].(status := status)]
    ensures AllIn(ids[1..], rs')
    ensures AllPending(rs', ids[1..]) && Distinct(ids[1..]) <==> AllPending(rs, ids) && Distinct(ids)
  {
    var tail := ids[1..];
    if AllPending(rs', tail) && Distinct(tail) {
      forall i, j | 0 <= i < j < |ids| ensures ids[i] != ids[j] {
        if i == 0 {
          assert rs'[tail[j - 1]].status == Pending;
        } else {
          assert tail[i - 1] != tail[j - 1];
        }
      }
    }
    if AllPending(rs, ids) && Distinct(ids) {
      forall i | 0 <= i < |tail| ensures rs'[tail[i]].status == Pending {
        assert ids[0] != ids[i + 1];
      }
      forall i, j | 0 <= i < j < |tail| ensures tail[i] != tail[j] {
        assert ids[i + 1] != ids[j + 1];
      }
    }
  }

  /** When every walked request belongs to `e`, the walk adds exactly the confirmed
      ones to `e`'s confirmed count and moves no other event's counts. */
  lemma {:induction false} WalkCounts(rs: RequestStore, ids: seq<nat>, count: int, limit: int, e: nat)
    requires AllIn(ids, rs) && AllOfEvent(rs, ids, e)
    requires AllPending(rs, ids) && Distinct(ids)
    ensures ConfirmedCount(Walk(rs, ids, count, limit).value.store, e)
         == ConfirmedCount(rs, e) + |Walk(rs, ids, count, limit).value.confirmed|
    ensures forall e', s | e' != e ::
      CountByEventAndStatus(Walk(rs, ids, count, limit).value.store, e', s) == CountByEventAndStatus(rs, e', s)
    decreases |ids|
  {
    if |ids| > 0 {
      var id := ids[0];
      var status := if count < limit then Confirmed else Rejected;
      var q := rs[id].(status := status);
      var rs' := rs[id := q];
      var count' := if count < limit then count + 1 else count;
      assert AllIn(ids[1..], rs');
      assert AllOfEvent(rs', ids[1..], e);
      WalkStep(rs, ids, rs', status);
      WalkCounts(rs', ids[1..], count', limit, e);
      CountAfterWrite(rs, id, q, e, Confirmed);
      forall e', s | e' != e
        ensures CountByEventAndStatus(Walk(rs, ids, count, limit).value.store, e', s) == CountByEventAndStatus(rs, e', s)
      {
        CountAfterWrite(rs, id, q, e', s);
      }
    }
  }

  // ---- the batch operation ----

  /** A successful walk changes only statuses. */
  lemma WalkKeepsRequests(rs: RequestStore, ids: seq<nat>, count: int, limit: int)
    requires AllIn(ids, rs) && AllPending(rs, ids) && Distinct(ids)
    ensures SameExceptStatus(rs, Walk(rs, ids, count, limit).value.store)
  {
    var w := Walk(rs, ids, count, limit).value;
    WalkFrame(rs, ids, count, limit);
    WalkPositions(rs, ids, count, limit);
    var k := |w.confirmed|;
    forall id | id in rs ensures w.store[id].(status := rs[id].status) == rs[id] {
      if id in ids {
        var i :| 0 <= i < |ids| && ids[i] == id;
        assert Became(rs, w.store, ids[i], if i < k then Confirmed else Rejected);
      }
    }
  }

  /** Every request a successful walk reports as rejected has become REJECTED. */
  lemma WalkRejectsReported(rs: RequestStore, ids: seq<nat>, count: int, limit: int)
    requires AllIn(ids, rs) && AllPending(rs, ids) && Distinct(ids)
    ensures var w := Walk(rs, ids, count, limit).value;
      forall i | 0 <= i < |w.rejected| :: Became(rs, w.store, w.rejected[i], Rejected)
  {
    var w := Walk(rs, ids, count, limit).value;
    WalkPositions(rs, ids, count, limit);
    var k := |w.confirmed|;
    forall i | 0 <= i < |w.rejected|
      ensures Became(rs, w.store, w.rejected[i], Rejected)
    {
      assert w.rejected[i] == ids[k + i];
    }
  }

  /** What a successful walk leaves: the same requests up to status, the fetched ids
      split into a confirmed prefix and a rejected rest, each with its new status. */
  lemma WalkShape(rs: RequestStore, ids: seq<nat>, count: int, limit: int)
    requires AllIn(ids, rs) && AllPending(rs, ids) && Distinct(ids)
    ensures SameExceptStatus(rs, Walk(rs, ids, count, limit).value.store)
    ensures ids == Walk(rs, ids, count, limit).value.confirmed + Walk(rs, ids, count, limit).value.rejected
    ensures var w := Walk(rs, ids, count, limit).value;
      forall i | 0 <= i < |w.confirmed| :: Became(rs, w.store, w.confirmed[i], Confirmed)
    ensures var w := Walk(rs, ids, count, limit).value;
      forall i | 0 <= i < |w.rejected| :: Became(rs, w.store, w.rejected[i], Rejected)
    ensures var w := Walk(rs, ids, count, limit).value;
      forall id | id in rs && id !in ids :: w.store[id] == rs[id]
  {
    var w := Walk(rs, ids, count, limit).value;
    assert ids == ids[..|w.confirmed|] + ids[|w.confirmed|..];
    WalkFrame(rs, ids, count, limit);
    WalkPositions(rs, ids, count, limit);
    WalkKeepsRequests(rs, ids, count, limit);
    WalkRejectsReported(rs, ids, count, limit);
  }

  datatype BatchResult = BatchResult(store: RequestStore, confirmed: seq<nat>, rejected: seq<nat>)

  /** The confirm walk over requests all PENDING and distinct, starting from the
      event's confirmed count; when it fills the event, every other pending request of
      the event is rejected too, and those are not reported. */
  function ConfirmBatch(rs: RequestStore, eventId: nat, fetched: seq<nat>, limit: int): (r: Result<BatchResult>)
    requires AllIn(fetched, rs)
    ensures r.Ok? <==> AllPending(rs, fetched) && Distinct(fetched)
    ensures r.Err? ==> r.error == Forbidden
    ensures r.Ok? ==> SameExceptStatus(rs, r.value.store)
    ensures r.Ok? ==> r.value.confirmed + r.value.rejected == fetched
    ensures r.Ok? ==>
      var c0 := ConfirmedCount(rs, eventId);
      && (c0 <= limit ==> c0 + |r.value.confirmed| <= limit)
      && (c0 >= limit ==> r.value.confirmed == [])
      && (c0 < limit ==> |r.value.confirmed| == |fetched| || c0 + |r.value.confirmed| == limit)
    ensures r.Ok? ==> forall i | 0 <= i < |r.value.confirmed| ::
      Became(rs, r.value.store, r.value.confirmed[i], Confirmed)
    ensures r.Ok? ==> forall i | 0 <= i < |r.value.rejected| ::
      Became(rs, r.value.store, r.value.rejected[i], Rejected)
  {
    var w :- Walk(rs, fetched, ConfirmedCount(rs, eventId), limit);
    var store := if w.count == limit then BulkUpdateStatus(w.store, eventId, Pending, Rejected) else w.store;
    WalkShape(rs, fetched, ConfirmedCount(rs, eventId), limit);
    BulkUpdateShape(w.store, eventId, Pending, Rejected);
    SameExceptStatusTrans(rs, w.store, store);
    Ok(BatchResult(store, w.confirmed, w.rejected))
  }

  /** A REJECTED batch: a walk with no free slot. */
  function RejectBatch(rs: RequestStore, fetched: seq<nat>): (r: Result<BatchResult>)
    requires AllIn(fetched, rs)
    ensures r.Ok? <==> AllPending(rs, fetched) && Distinct(fetched)
    ensures r.Err? ==> r.error == Forbidden
    ensures r.Ok? ==> SameExceptStatus(rs, r.value.store)
    ensures r.Ok? ==> r.value.confirmed == [] && r.value.rejected == fetched
    ensures r.Ok? ==> forall i | 0 <= i < |fetched| :: Became(rs, r.value.store, fetched[i], Rejected)
    ensures r.Ok? ==> forall id | id in rs && id !in fetched :: r.value.store[id] == rs[id]
  {
    var w :- Walk(rs, fetched, 0, 0);
    WalkShape(rs, fetched, 0, 0);
    Ok(BatchResult(w.store, [], w.rejected))
  }

  /** The initiator's batch decision. `fetched` is what `findAllById` returned for the
      ids in the body, in that order; `target` is the status named in the body, `None`
      for a name RequestStatus does not declare. Neither the caller's ownership of the
      event nor the event of the fetched requests is checked. */
  function ChangeRequestsStatus(users: set<nat>, events: E.EventStore, rs: RequestStore, userId: nat,
                                eventId: nat, fetched: seq<nat>, target: Option<RequestStatus>): (r: Result<BatchResult>)
    requires AllIn(fetched, rs)
    ensures userId !in users ==> r == Err(UserNotFound)
    ensures userId in users && eventId !in events ==> r == Err(EventNotFound)
    ensures userId in users && eventId in events && |fetched| == 0 ==> r == Ok(BatchResult(rs, [], []))
    ensures userId in users && eventId in events && |fetched| > 0 && target.None? ==> r == Err(IllegalArgument)
    ensures userId in users && eventId in events && (target == Some(Pending) || target == Some(Canceled)) ==>
      r == Ok(BatchResult(rs, [], []))
    ensures userId in users && eventId in events && |fetched| > 0 && target == Some(Confirmed) ==>
      var limit := events[eventId].participantLimit;
      (limit == 0 || !events[eventId].requestModeration || ConfirmedCount(rs, eventId) == limit)
        ==> r == Err(Forbidden)
    // past its guards, a confirm runs the walk and the cascade
    ensures userId in users && eventId in events && |fetched| > 0 && target == Some(Confirmed) ==>
      var limit := events[eventId].participantLimit;
      (limit != 0 && events[eventId].requestModeration && ConfirmedCount(rs, eventId) != limit)
        ==> r == ConfirmBatch(rs, eventId, fetched, limit)
    ensures userId in users && eventId in events && |fetched| > 0 && target == Some(Rejected) ==>
      r == RejectBatch(rs, fetched)
    ensures r.Err? ==> r.error != Forbidden || target == Some(Confirmed) || target == Some(Rejected)
    ensures r.Ok? ==> SameExceptStatus(rs, r.value.store)
    ensures r.Ok? && |fetched| > 0 && target == Some(Confirmed) ==>
      && events[eventId].participantLimit != 0
      && events[eventId].participantLimit != ConfirmedCount(rs, eventId)
      && r == ConfirmBatch(rs, eventId, fetched, events[eventId].participantLimit)
  {
    if userId !in users then Err(UserNotFound)
    else if eventId !in events then Err(EventNotFound)
    else if |fetched| == 0 then Ok(BatchResult(rs, [], []))
    else
      match target
      case None => Err(IllegalArgument)
      case Some(Confirmed) =>
        var ev := events[eventId];
        var limit := ev.participantLimit;
        if limit == 0 || !ev.requestModeration then Err(Forbidden)
        else if ConfirmedCount(rs, eventId) == limit then Err(Forbidden)
        else ConfirmBatch(rs, eventId, fetched, limit)
      case Some(Rejected) => RejectBatch(rs, fetched)
      case Some(_) => Ok(BatchResult(rs, [], []))
  }

  /** The cascade: once a confirm batch fills the event, every PENDING request of the
      event the batch did not name becomes REJECTED, so none is left PENDING, and every
      other request is as it was. Short of the limit, requests the batch did not name
      keep their status. */
  lemma CascadeRejectsRest(rs: RequestStore, eventId: nat, fetched: seq<nat>, limit: int)
    requires AllIn(fetched, rs) && AllPending(rs, fetched) && Distinct(fetched)
    ensures ConfirmBatch(rs, eventId, fetched, limit).Ok?
    ensures var r := ConfirmBatch(rs, eventId, fetched, limit).value;
      ConfirmedCount(rs, eventId) + |r.confirmed| == limit ==> CountByEventAndStatus(r.store, eventId, Pending) == 0
    ensures var r := ConfirmBatch(rs, eventId, fetched, limit).value;
      ConfirmedCount(rs, eventId) + |r.confirmed| == limit ==>
        forall id | id in rs && id !in fetched ::
          r.store[id] == (if rs[id].event == eventId && rs[id].status == Pending then rs[id].(status := Rejected) else rs[id])
    ensures var r := ConfirmBatch(rs, eventId, fetched, limit).value;
      ConfirmedCount(rs, eventId) + |r.confirmed| != limit ==> forall id | id in rs && id !in fetched :: r.store[id] == rs[id]
  {
    var c0 := ConfirmedCount(rs, eventId);
    var w := Walk(rs, fetched, c0, limit).value;
    WalkFrame(rs, fetched, c0, limit);
    BulkRejectEffect(w.store, eventId);
    if c0 + |w.confirmed| == limit {
      CascadeFrame(rs, w.store, eventId, fetched);
    }
  }

  /** The bulk reject after a walk: a request the walk left alone is rejected when it
      is a PENDING request of the event, and kept otherwise. */
  lemma CascadeFrame(rs: RequestStore, walked: RequestStore, eventId: nat, fetched: seq<nat>)
    requires walked.Keys == rs.Keys
    requires forall id | id in rs && id !in fetched :: walked[id] == rs[id]
    ensures var after := BulkUpdateStatus(walked, eventId, Pending, Rejected);
      forall id | id in rs && id !in fetched ::
        after[id] == (if rs[id].event == eventId && rs[id].status == Pending then rs[id].(status := Rejected) else rs[id])
  {
  }

  /** When every fetched request belongs to the event, a batch keeps every event
      within its limit. */
  lemma BatchKeepsCapacity(users: set<nat>, events: E.EventStore, rs: RequestStore, userId: nat,
                           eventId: nat, fetched: seq<nat>, target: Option<RequestStatus>)
    requires AllIn(fetched, rs) && AllOfEvent(rs, fetched, eventId) && CapacityOk(events, rs)
    requires ChangeRequestsStatus(users, events, rs, userId, eventId, fetched, target).Ok?
    ensures CapacityOk(events, ChangeRequestsStatus(users, events, rs, userId, eventId, fetched, target).value.store)
  {
    var r := ChangeRequestsStatus(users, events, rs, userId, eventId, fetched, target).value;
    if |fetched| > 0 && target == Some(Confirmed) {
      var limit := events[eventId].participantLimit;
      var c0 := ConfirmedCount(rs, eventId);
      var w := Walk(rs, fetched, c0, limit).value;
      WalkCounts(rs, fetched, c0, limit, eventId);
      BulkRejectEffect(w.store, eventId);
      forall e | e in events && events[e].participantLimit > 0
        ensures ConfirmedCount(r.store, e) <= events[e].participantLimit
      {
        if e != eventId {
          assert CountByEventAndStatus(w.store, e, Confirmed) == CountByEventAndStatus(rs, e, Confirmed);
        }
      }
    } else if |fetched| > 0 && target == Some(Rejected) {
      var w := Walk(rs, fetched, 0, 0).value;
      WalkCounts(rs, fetched, 0, 0, eventId);
      forall e | e in events && events[e].participantLimit > 0
        ensures ConfirmedCount(r.store, e) <= events[e].participantLimit
      {
        if e != eventId {
          assert CountByEventAndStatus(w.store, e, Confirmed) == CountByEventAndStatus(rs, e, Confirmed);
        }
      }
    }
  }

  /** A batch changes statuses only, so it keeps requests unique per pair. */
  lemma BatchKeepsUniqueness(users: set<nat>, events: E.EventStore, rs: RequestStore, userId: nat,
                             eventId: nat, fetched: seq<nat>, target: Option<RequestStatus>)
    requires AllIn(fetched, rs) && UniquePairs(rs)
    requires ChangeRequestsStatus(users, events, rs, userId, eventId, fetched, target).Ok?
    ensures UniquePairs(ChangeRequestsStatus(users, events, rs, userId, eventId, fetched, target).value.store)
  {
    UniquePairsIgnoresStatus(rs, ChangeRequestsStatus(users, events, rs, userId, eventId, fetched, target).value.store);
  }

  /** Two seats, three pending requests 1, 2, 3 confirmed in one batch and a fourth
      pending request 4: the first two are confirmed, the third rejected, and the
      fourth rejected by the cascade without appearing in the result. */
  lemma BatchOrderingScenario()
    ensures var events := map[1 := OneSeatEvent(0).(participantLimit := 2)];
      var rs := map[1 := Request(1, 11, Pending, 0), 2 := Request(1, 12, Pending, 0),
                    3 := Request(1, 13, Pending, 0), 4 := Request(1, 14, Pending, 0)];
      var r := ChangeRequestsStatus({0}, events, rs, 0, 1, [1, 2, 3], Some(Confirmed));
      && r.Ok?
      && r.value.confirmed == [1, 2]
      && r.value.rejected == [3]
      && r.value.store[4].status == Rejected
  {
    var events := map[1 := OneSeatEvent(0).(participantLimit := 2)];
    var rs := map[1 := Request(1, 11, Pending, 0), 2 := Request(1, 12, Pending, 0),
                  3 := Request(1, 13, Pending, 0), 4 := Request(1, 14, Pending, 0)];
    var ids := [1, 2, 3];
    OrderingWalk(rs);
    assert WithEventAndStatus(rs, 1, Confirmed) == {};
    assert ChangeRequestsStatus({0}, events, rs, 0, 1, ids, Some(Confirmed)) == ConfirmBatch(rs, 1, ids, 2);
  }

  /** The walk of `BatchOrderingScenario`: two seats, three pending requests. */
  lemma OrderingWalk(rs: RequestStore)
    requires rs == map[1 := Request(1, 11, Pending, 0), 2 := Request(1, 12, Pending, 0),
                       3 := Request(1, 13, Pending, 0), 4 := Request(1, 14, Pending, 0)]
    ensures AllIn([1, 2, 3], rs) && Walk(rs, [1, 2, 3], 0, 2).Ok?
    ensures var w := Walk(rs, [1, 2, 3], 0, 2).value;
      && w.confirmed == [1, 2] && w.rejected == [3] && w.count == 2
      && w.store.Keys == rs.Keys && w.store[4] == rs[4]
  {
    var ids := [1, 2, 3];
    assert AllPending(rs, ids) && Distinct(ids);
    var w := Walk(rs, ids, 0, 2).value;
    assert w.confirmed == ids[..2] && w.rejected == ids[2..];
    WalkFrame(rs, ids, 0, 2);
  }

  // ---- finding: the batch trusts the ids it is given ----

  /** A published event with moderation on and room for one participant. */
  function OneSeatEvent(initiator: nat): (ev: E.Event)
    ensures ev.participantLimit == 1 && ev.requestModeration && ev.initiator == initiator
  {
    E.Event("Meetup", "An evening of talks on Dafny", "An evening of talks on Dafny",
            0, 100000, Dto.Location(0.0, 0.0), false, 1, true, E.Published, initiator, 0, Some(0), 0)
  }

  /** As written, a user who did not organise event 1 may decide on its requests:
      user 7 confirms user 6's pending request for it. */
  lemma BatchByNonInitiator()
    ensures var events := map[1 := OneSeatEvent(0)];
      var rs := map[11 := Request(1, 6, Pending, 0)];
      && events[1].initiator != 7
      && ChangeRequestsStatus({0, 6, 7}, events, rs, 7, 1, [11], Some(Confirmed))
         == Ok(BatchResult(map[11 := Request(1, 6, Confirmed, 0)], [11], []))
  {
    var events := map[1 := OneSeatEvent(0)];
    var rs := map[11 := Request(1, 6, Pending, 0)];
    assert WithEventAndStatus(rs, 1, Confirmed) == {};
    var walked := map[11 := Request(1, 6, Confirmed, 0)];
    assert rs[11 := rs[11].(status := Confirmed)] == walked;
    assert [11][1..] == [];
    assert AllPending(rs, [11]) && Distinct([11]);
    var w := Walk(rs, [11], 0, 1).value;
    assert w.confirmed == [11][..1] == [11];
    assert w.store.Keys == walked.Keys && w.store[11] == walked[11];
    assert w.store == walked;
    assert BulkUpdateStatus(walked, 1, Pending, Rejected) == walked;
  }

  /** As written, a request of another event is walked under this event's limit:
      event 2 is full with one confirmed participant, yet confirming its pending
      request through event 1 leaves event 2 with two. */
  lemma BatchCrossesEvents()
    ensures var events := map[1 := OneSeatEvent(0), 2 := OneSeatEvent(0)];
      var rs := map[10 := Request(2, 5, Confirmed, 0), 11 := Request(2, 6, Pending, 0)];
      var r := ChangeRequestsStatus({0, 5, 6}, events, rs, 0, 1, [11], Some(Confirmed));
      && CapacityOk(events, rs)
      && r.Ok?
      && ConfirmedCount(r.value.store, 2) == 2
      && !CapacityOk(events, r.value.store)
  {
    var events := map[1 := OneSeatEvent(0), 2 := OneSeatEvent(0)];
    var rs := map[10 := Request(2, 5, Confirmed, 0), 11 := Request(2, 6, Pending, 0)];
    assert WithEventAndStatus(rs, 1, Confirmed) == {};
    assert WithEventAndStatus(rs, 2, Confirmed) == {10};
    var walked := rs[11 := rs[11].(status := Confirmed)];
    CrossingWalk(rs);
    assert BulkUpdateStatus(walked, 1, Pending, Rejected) == walked;
    assert ChangeRequestsStatus({0, 5, 6}, events, rs, 0, 1, [11], Some(Confirmed)).value.store == walked;
    assert WithEventAndStatus(walked, 2, Confirmed) == {10, 11};
  }

  /** The walk of `BatchCrossesEvents`: one seat free, one pending request. */
  lemma CrossingWalk(rs: RequestStore)
    requires rs == map[10 := Request(2, 5, Confirmed, 0), 11 := Request(2, 6, Pending, 0)]
    ensures AllIn([11], rs)
    ensures Walk(rs, [11], 0, 1) == Ok(WalkOut(rs[11 := rs[11].(status := Confirmed)], [11], [], 1))
  {
    var walked := rs[11 := rs[11].(status := Confirmed)];
    assert [11][1..] == [];
    assert Walk(walked, [], 1, 1) == Ok(WalkOut(walked, [], [], 1));
    assert [11] + [] == [11];
  }

  /** The capacity invariant is kept against a fixed event store only: an
      administrator may lower the limit of a published event below its confirmed
      count, and the edit goes through. */
  lemma AdminLimitEditBreaksCapacity()
    ensures var events := map[1 := OneSeatEvent(0).(participantLimit := 2)];
      var rs := map[10 := Request(1, 5, Confirmed, 0), 11 := Request(1, 6, Confirmed, 0)];
      var r := E.UpdateEventByAdmin({0}, events, 1, E.NoChange.(participantLimit := Some(1)), None, 0);
      && CapacityOk(events, rs)
      && r.Ok?
      && r.value.1.state == E.Published
      && r.value.1.participantLimit == 1
      && !CapacityOk(r.value.0, rs)
  {
    var rs := map[10 := Request(1, 5, Confirmed, 0), 11 := Request(1, 6, Confirmed, 0)];
    assert WithEventAndStatus(rs, 1, Confirmed) == {10, 11};
  }

  /** The batch as evidently intended: only the event's initiator may decide, and
      only on requests for that event; otherwise the same as `ChangeRequestsStatus`. */
  function ChangeRequestsStatusChecked(users: set<nat>, events: E.EventStore, rs: RequestStore, userId: nat,
                                       eventId: nat, fetched: seq<nat>, target: Option<RequestStatus>)
    : (r: Result<BatchResult>)
    requires AllIn(fetched, rs)
    ensures userId in users && eventId in events && events[eventId].initiator != userId ==> r == Err(Forbidden)
    ensures userId in users && eventId in events && !AllOfEvent(rs, fetched, eventId) ==> r == Err(Forbidden)
    ensures !(userId in users && eventId in events
              && (events[eventId].initiator != userId || !AllOfEvent(rs, fetched, eventId))) ==>
      r == ChangeRequestsStatus(users, events, rs, userId, eventId, fetched, target)
    ensures r.Ok? ==> r == ChangeRequestsStatus(users, events, rs, userId, eventId, fetched, target)
    ensures r.Ok? ==> eventId in events && events[eventId].initiator == userId && AllOfEvent(rs, fetched, eventId)
  {
    if userId in users && eventId in events
       && (events[eventId].initiator != userId || !AllOfEvent(rs, fetched, eventId))
    then Err(Forbidden)
    else ChangeRequestsStatus(users, events, rs, userId, eventId, fetched, target)
  }

  /** With the checks in place, no batch can push any event past its limit. */
  lemma CheckedBatchKeepsCapacity(users: set<nat>, events: E.EventStore, rs: RequestStore, userId: nat,
                                  eventId: nat, fetched: seq<nat>, target: Option<RequestStatus>)
    requires AllIn(fetched, rs) && CapacityOk(events, rs)
    requires ChangeRequestsStatusChecked(users, events, rs, userId, eventId, fetched, target).Ok?
    ensures CapacityOk(events, ChangeRequestsStatusChecked(users, events, rs, userId, eventId, fetched, target).value.store)
  {
    BatchKeepsCapacity(users, events, rs, userId, eventId, fetched, target);
  }

  // ---- sequences of request operations ----

  /** A request operation as a client issues it. A create carries the id the store
      will assign; a batch carries what `findAllById` returned. */
  datatype RequestOp =
    | CreateOp(userId: nat, eventId: nat, newId: nat, now: Instant)
    | CancelOp(userId: nat, requestId: nat)
    | BatchOp(userId: nat, eventId: nat, fetched: seq<nat>, target: Option<RequestStatus>)

  /** One operation, with the batch as evidently intended. Every operation is one
      transaction, so a failing one leaves the store as it was; a create whose id is
      taken or a batch naming unstored ids is no call the repository can make, and is
      a no-op too. */
  function Step(users: set<nat>, events: E.EventStore, rs: RequestStore, op: RequestOp): RequestStore {
    match op
    case CreateOp(u, e, id, now) =>
      if id in rs then rs
      else
        var r := CreateRequest(users, events, rs, u, e, id, now);
        if r.Ok? then r.value.0 else rs
    case CancelOp(u, id) =>
      var r := CancelRequest(users, rs, u, id);
      if r.Ok? then r.value.0 else rs
    case BatchOp(u, e, fetched, target) =>
      if !AllIn(fetched, rs) then rs
      else
        var r := ChangeRequestsStatusChecked(users, events, rs, u, e, fetched, target);
        if r.Ok? then r.value.store else rs
  }

  function Run(users: set<nat>, events: E.EventStore, rs: RequestStore, ops: seq<RequestOp>): RequestStore
    decreases |ops|
  {
    if |ops| == 0 then rs else Run(users, events, Step(users, events, rs, ops[0]), ops[1..])
  }

  lemma StepKeepsCapacity(users: set<nat>, events: E.EventStore, rs: RequestStore, op: RequestOp)
    requires CapacityOk(events, rs)
    ensures CapacityOk(events, Step(users, events, rs, op))
  {
    match op
    case CreateOp(u, e, id, now) =>
      if id !in rs && CreateRequest(users, events, rs, u, e, id, now).Ok? {
        CreateKeepsCapacity(users, events, rs, u, e, id, now);
      }
    case CancelOp(u, id) =>
      if CancelRequest(users, rs, u, id).Ok? {
        CancelKeepsCapacity(users, events, rs, u, id);
      }
    case BatchOp(u, e, fetched, target) =>
      if AllIn(fetched, rs) && ChangeRequestsStatusChecked(users, events, rs, u, e, fetched, target).Ok? {
        CheckedBatchKeepsCapacity(users, events, rs, u, e, fetched, target);
      }
  }

  /** From a store within capacity, no sequence of request operations can push an
      event past its participant limit. */
  lemma {:induction false} RunKeepsCapacity(users: set<nat>, events: E.EventStore, rs: RequestStore, ops: seq<RequestOp>)
    requires CapacityOk(events, rs)
    ensures CapacityOk(events, Run(users, events, rs, ops))
    decreases |ops|
  {
    if |ops| > 0 {
      StepKeepsCapacity(users, events, rs, ops[0]);
      RunKeepsCapacity(users, events, Step(users, events, rs, ops[0]), ops[1..]);
    }
  }

  lemma StepKeepsUniqueness(users: set<nat>, events: E.EventStore, rs: RequestStore, op: RequestOp)
    requires UniquePairs(rs) && NoSelfRequests(events, rs)
    ensures UniquePairs(Step(users, events, rs, op)) && NoSelfRequests(events, Step(users, events, rs, op))
  {
    match op
    case CreateOp(u, e, id, now) =>
      if id !in rs && CreateRequest(users, events, rs, u, e, id, now).Ok? {
        CreateKeepsUniqueness(users, events, rs, u, e, id, now);
      }
    case CancelOp(u, id) =>
      if CancelRequest(users, rs, u, id).Ok? {
        var rs' := CancelRequest(users, rs, u, id).value.0;
        UniquePairsIgnoresStatus(rs, rs');
        SelfRequestsIgnoreStatus(events, rs, rs');
      }
    case BatchOp(u, e, fetched, target) =>
      if AllIn(fetched, rs) && ChangeRequestsStatusChecked(users, events, rs, u, e, fetched, target).Ok? {
        var rs' := ChangeRequestsStatusChecked(users, events, rs, u, e, fetched, target).value.store;
        UniquePairsIgnoresStatus(rs, rs');
        SelfRequestsIgnoreStatus(events, rs, rs');
      }
  }

  lemma SelfRequestsIgnoreStatus(events: E.EventStore, rs: RequestStore, rs': RequestStore)
    requires NoSelfRequests(events, rs) && SameExceptStatus(rs, rs')
    ensures NoSelfRequests(events, rs')
  {
    forall id | id in rs' && rs'[id].event in events
      ensures rs'[id].requester != events[rs'[id].event].initiator
    {
      assert rs'[id].(status := rs[id].status) == rs[id];
    }
  }

  /** No sequence of request operations creates a second request for the same
      (requester, event) pair or lets an initiator into their own event. */
  lemma {:induction false} RunKeepsUniqueness(users: set<nat>, events: E.EventStore, rs: RequestStore, ops: seq<RequestOp>)
    requires UniquePairs(rs) && NoSelfRequests(events, rs)
    ensures UniquePairs(Run(users, events, rs, ops)) && NoSelfRequests(events, Run(users, events, rs, ops))
    decreases |ops|
  {
    if |ops| > 0 {
      StepKeepsUniqueness(users, events, rs, ops[0]);
      RunKeepsUniqueness(users, events, Step(users, events, rs, ops[0]), ops[1..]);
    }
  }
}
