/** Participation requests and the query semantics of their repository:
    look-up by (requester, event), listing by requester, counting by event
    and status, and the bulk status update. */
module RequestStore {
  import opened Common

  datatype RequestStatus = Pending | Confirmed | Rejected | Canceled

  datatype Request = Request(event: nat, requester: nat, status: RequestStatus, created: int)

  type RequestStore = map<nat, Request>

  /** The ids of the requests of `eventId` whose status is `s`. */
  function WithEventAndStatus(rs: RequestStore, eventId: nat, s: RequestStatus): set<nat> {
    set id | id in rs && rs[id].event == eventId && rs[id].status == s
  }

  /** `countByEventIdAndStatus`. */
  function CountByEventAndStatus(rs: RequestStore, eventId: nat, s: RequestStatus): nat {
    |WithEventAndStatus(rs, eventId, s)|
  }

  /** Confirmed participants of an event. */
  function ConfirmedCount(rs: RequestStore, eventId: nat): nat {
    CountByEventAndStatus(rs, eventId, Confirmed)
  }

  /** `findByRequesterIdAndEventId` finds something: a request of this user for
      this event exists, whatever its status. */
  predicate ExistsForRequesterAndEvent(rs: RequestStore, userId: nat, eventId: nat) {
    exists id | id in rs :: rs[id].requester == userId && rs[id].event == eventId
  }

  /** `findByRequesterIdAndEventId`: one such request, or null. */
  ghost function FindByRequesterAndEvent(rs: RequestStore, userId: nat, eventId: nat): (r: Option<nat>)
    ensures r.Some? <==> ExistsForRequesterAndEvent(rs, userId, eventId)
    ensures r.Some? ==> r.value in rs && rs[r.value].requester == userId && rs[r.value].event == eventId
  {
    if ExistsForRequesterAndEvent(rs, userId, eventId) then
      var id :| id in rs && rs[id].requester == userId && rs[id].event == eventId; Some(id)
    else None
  }

  /** `findByRequesterId`. */
  function FindByRequester(rs: RequestStore, userId: nat): (r: set<nat>)
    ensures forall id :: id in r <==> id in rs && rs[id].requester == userId
  {
    set id | id in rs && rs[id].requester == userId
  }

  /** `findByEventIn`: the requests of any of the given events. */
  function FindByEventIn(rs: RequestStore, eventIds: set<nat>): (r: set<nat>)
    ensures forall id :: id in r <==> id in rs && rs[id].event in eventIds
  {
    set id | id in rs && rs[id].event in eventIds
  }

  /** `update Request set status = newStatus where event = eventId and status = searchStatus`. */
  function BulkUpdateStatus(rs: RequestStore, eventId: nat, searchStatus: RequestStatus,
                            newStatus: RequestStatus): (r: RequestStore)
    ensures r.Keys == rs.Keys
    ensures forall id | id in rs && rs[id].event == eventId && rs[id].status == searchStatus ::
      r[id] == rs[id].(status := newStatus)
    ensures forall id | id in rs && !(rs[id].event == eventId && rs[id].status == searchStatus) ::
      r[id] == rs[id]
  {
    map id | id in rs ::
      if rs[id].event == eventId && rs[id].status == searchStatus then rs[id].(status := newStatus) else rs[id]
  }

  /** After rejecting an event's pending requests in bulk it has none left, its
      confirmed count is unchanged, and no other event's counts move. */
  lemma BulkRejectEffect(rs: RequestStore, eventId: nat)
    ensures var r := BulkUpdateStatus(rs, eventId, Pending, Rejected);
      && CountByEventAndStatus(r, eventId, Pending) == 0
      && ConfirmedCount(r, eventId) == ConfirmedCount(rs, eventId)
      && forall e, s | e != eventId :: CountByEventAndStatus(r, e, s) == CountByEventAndStatus(rs, e, s)
  {
    var r := BulkUpdateStatus(rs, eventId, Pending, Rejected);
    assert WithEventAndStatus(r, eventId, Pending) == {};
    assert WithEventAndStatus(r, eventId, Confirmed) == WithEventAndStatus(rs, eventId, Confirmed);
    forall e, s | e != eventId
      ensures CountByEventAndStatus(r, e, s) == CountByEventAndStatus(rs, e, s)
    {
      assert WithEventAndStatus(r, e, s) == WithEventAndStatus(rs, e, s);
    }
  }

  /** `1` when the request is of event `e` with status `s`, else `0`. */
  function Hit(q: Request, e: nat, s: RequestStatus): nat {
    if q.event == e && q.status == s then 1 else 0
  }

  /** Overwriting one request moves each count by what the old and new value contribute. */
  lemma CountAfterWrite(rs: RequestStore, id: nat, q: Request, e: nat, s: RequestStatus)
    ensures id in rs ==>
      CountByEventAndStatus(rs[id := q], e, s) + Hit(rs[id], e, s) == CountByEventAndStatus(rs, e, s) + Hit(q, e, s)
    ensures id !in rs ==>
      CountByEventAndStatus(rs[id := q], e, s) == CountByEventAndStatus(rs, e, s) + Hit(q, e, s)
  {
    var before := WithEventAndStatus(rs, e, s);
    var after := WithEventAndStatus(rs[id := q], e, s);
    var rest := before - {id};
    WriteKeepsOthers(rs, id, q, e, s);
    CardWithout(after, id);
    assert |after| == |rest| + Hit(q, e, s);
    CardWithout(before, id);
    if id in rs {
      assert |before| == |rest| + Hit(rs[id], e, s);
    } else {
      assert |before| == |rest|;
    }
  }

  /** Overwriting request `id` changes no other request's membership in a count. */
  lemma WriteKeepsOthers(rs: RequestStore, id: nat, q: Request, e: nat, s: RequestStatus)
    ensures WithEventAndStatus(rs[id := q], e, s) - {id} == WithEventAndStatus(rs, e, s) - {id}
  {
  }

  /** Taking one element out of a set lowers its size by one exactly when it was there. */
  lemma CardWithout(a: set<nat>, x: nat)
    ensures |a| == |a - {x}| + (if x in a then 1 else 0)
  {
    if x in a {
      assert a == (a - {x}) + {x};
    } else {
      assert a == a - {x};
    }
  }

  /** Request `id` is in both stores, and in `after` it is the request of `before`
      with status `s`. */
  predicate Became(before: RequestStore, after: RequestStore, id: nat, s: RequestStatus) {
    id in before && id in after && after[id] == before[id].(status := s)
  }

  /** At most one request per (requester, event) pair. */
  predicate UniquePairs(rs: RequestStore) {
    forall a, b | a in rs && b in rs && a != b ::
      !(rs[a].requester == rs[b].requester && rs[a].event == rs[b].event)
  }

  /** Two stores hold the same requests up to their statuses. */
  predicate SameExceptStatus(rs: RequestStore, rs': RequestStore) {
    && rs'.Keys == rs.Keys
    && forall id | id in rs :: rs'[id].(status := rs[id].status) == rs[id]
  }

  lemma UniquePairsIgnoresStatus(rs: RequestStore, rs': RequestStore)
    requires UniquePairs(rs) && SameExceptStatus(rs, rs')
    ensures UniquePairs(rs')
  {
    forall a, b | a in rs' && b in rs' && a != b
      ensures !(rs'[a].requester == rs'[b].requester && rs'[a].event == rs'[b].event)
    {
      assert rs'[a].(status := rs[a].status) == rs[a];
      assert rs'[b].(status := rs[b].status) == rs[b];
    }
  }

  lemma SameExceptStatusTrans(a: RequestStore, b: RequestStore, c: RequestStore)
    requires SameExceptStatus(a, b) && SameExceptStatus(b, c)
    ensures SameExceptStatus(a, c)
  {
    forall id | id in a ensures c[id].(status := a[id].status) == a[id] {
      assert c[id].(status := b[id].status) == b[id];
      assert b[id].(status := a[id].status) == a[id];
    }
  }

  /** The bulk update changes statuses only, and leaves requests not in the searched
      status as they were. */
  lemma BulkUpdateShape(rs: RequestStore, eventId: nat, searchStatus: RequestStatus, newStatus: RequestStatus)
    ensures SameExceptStatus(rs, BulkUpdateStatus(rs, eventId, searchStatus, newStatus))
    ensures forall id | id in rs && rs[id].status != searchStatus ::
      BulkUpdateStatus(rs, eventId, searchStatus, newStatus)[id] == rs[id]
  {
  }
}
