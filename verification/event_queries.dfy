/** The two event listings: the admin search over every event, and the public
    search over published events with its availability filter and sort. A listing
    is computed over `scan`, the order in which the table yields its rows. */
module EventQueries {
  import opened Common
  import opened Text
  import opened SeqOps
  import E = Events
  import RS = RequestStore

  // ---- state names ----

  /** The name of each state, as the enum spells it. */
  function StateName(s: E.EventState): string {
    match s
    case Pending => "PENDING"
    case Published => "PUBLISHED"
    case Canceled => "CANCELED"
  }

  /** `EventState.valueOf`: the state with that exact name, if there is one. */
  function ParseState(name: string): (r: Option<E.EventState>)
    ensures r.Some? ==> StateName(r.value) == name
    ensures r.None? ==> forall s :: StateName(s) != name
  {
    if name == "PENDING" then Some(E.Pending)
    else if name == "PUBLISHED" then Some(E.Published)
    else if name == "CANCELED" then Some(E.Canceled)
    else None
  }

  lemma ParseStateName(s: E.EventState)
    ensures ParseState(StateName(s)) == Some(s)
  {
  }

  /** Every name in the list, when there is a list, is a state's name. */
  predicate AllStatesKnown(states: Option<seq<string>>) {
    states.None? || forall i | 0 <= i < |states.value| :: ParseState(states.value[i]).Some?
  }

  /** The admin search's state check: the first unknown name stops it. */
  method ValidateEventStates(states: Option<seq<string>>) returns (r: Result<bool>)
    ensures r.Ok? <==> AllStatesKnown(states)
    ensures r.Err? ==> r.error == ValidationRequest
  {
    if states.None? {
      return Ok(true);
    }
    var names := states.value;
    var i := 0;
    while i < |names|
      invariant 0 <= i <= |names|
      invariant forall j | 0 <= j < i :: ParseState(names[j]).Some?
    {
      if ParseState(names[i]).None? {
        return Err(ValidationRequest);
      }
      i := i + 1;
    }
    return Ok(true);
  }

  // ---- the admin search ----

  /** A list parameter admits `x` when it is absent, empty, or holds `x`. */
  predicate ListAdmits<T(==)>(l: Option<seq<T>>, x: T) {
    l.None? || |l.value| == 0 || x in l.value
  }

  datatype AdminQuery = AdminQuery(
    users: Option<seq<nat>>,
    states: Option<seq<string>>,
    categories: Option<seq<nat>>,
    rangeStart: Option<Instant>,
    rangeEnd: Option<Instant>)

  /** The WHERE clause of `findEvents`: start inclusive, end exclusive, each bound
      ignored when absent. */
  predicate MatchesAdminQuery(ev: E.Event, q: AdminQuery) {
    && ListAdmits(q.users, ev.initiator)
    && ListAdmits(q.states, StateName(ev.state))
    && ListAdmits(q.categories, ev.category)
    && (q.rangeStart.None? || ev.eventDate >= q.rangeStart.value)
    && (q.rangeEnd.None? || ev.eventDate < q.rangeEnd.value)
  }

  /** `scan` lists exactly the stored events. */
  predicate IsScanOf(scan: seq<nat>, events: E.EventStore) {
    (forall id | id in scan :: id in events) && (forall id | id in events :: id in scan)
  }

  /** Orders later events first. */
  function LaterFirst(events: E.EventStore): nat -> int {
    id => if id in events then -events[id].eventDate else 0
  }

  /** Stored events, later dates first. */
  predicate DateDescending(events: E.EventStore, s: seq<nat>) {
    forall i, j | 0 <= i < j < |s| :: s[i] in events && s[j] in events && events[s[i]].eventDate >= events[s[j]].eventDate
  }

  /** Sorting stored events by `LaterFirst` puts later dates first. */
  lemma LaterFirstDescends(events: E.EventStore, s: seq<nat>)
    requires forall id | id in s :: id in events
    requires SortedBy(s, LaterFirst(events))
    ensures DateDescending(events, s)
  {
    forall i, j | 0 <= i < j < |s| ensures events[s[i]].eventDate >= events[s[j]].eventDate {
      assert LaterFirst(events)(s[i]) <= LaterFirst(events)(s[j]);
    }
  }

  function GetEventsByAdmin(events: E.EventStore, q: AdminQuery, scan: seq<nat>): (r: Result<seq<nat>>)
    requires IsScanOf(scan, events)
    ensures r.Ok? <==> AllStatesKnown(q.states)
    ensures r.Err? ==> r.error == ValidationRequest
    ensures r.Ok? ==> forall id :: id in r.value <==> id in events && MatchesAdminQuery(events[id], q)
    ensures r.Ok? ==> DateDescending(events, r.value)
  {
    if !AllStatesKnown(q.states) then Err(ValidationRequest)
    else
      var keep := (id: nat) => id in events && MatchesAdminQuery(events[id], q);
      var found := Filter(scan, keep);
      FilterMembershipAll(scan, keep);
      var sorted := SortBy(found, LaterFirst(events));
      SameElements(found, sorted);
      LaterFirstDescends(events, sorted);
      Ok(sorted)
  }

  /** An absent list and an empty one restrict nothing alike. */
  lemma EmptyListsRestrictNothing(ev: E.Event, rangeStart: Option<Instant>, rangeEnd: Option<Instant>)
    ensures MatchesAdminQuery(ev, AdminQuery(None, None, None, rangeStart, rangeEnd))
        == MatchesAdminQuery(ev, AdminQuery(Some([]), Some([]), Some([]), rangeStart, rangeEnd))
    ensures MatchesAdminQuery(ev, AdminQuery(None, None, None, None, None))
  {
  }

  // ---- the public search ----

  datatype PublicQuery = PublicQuery(
    text: Option<string>,
    categories: Option<seq<nat>>,
    paid: Option<bool>,
    rangeStart: Option<Instant>,
    rangeEnd: Option<Instant>,
    onlyAvailable: bool,
    sort: Option<string>)

  /** The WHERE clause of `findPublishedEvents`, with `start` the lower bound the
      service passes (the query's start, or now). An empty category list admits
      nothing. */
  predicate MatchesPublished(ev: E.Event, q: PublicQuery, start: Instant) {
    && ev.state == E.Published
    && (q.text.None? || ContainsIgnoringCase(ev.annotation, q.text.value)
        || ContainsIgnoringCase(ev.description, q.text.value))
    && (q.categories.None? || ev.category in q.categories.value)
    && (q.paid.None? || ev.paid == q.paid.value)
    && ev.eventDate >= start
    && (q.rangeEnd.None? || ev.eventDate < q.rangeEnd.value)
  }

  /** An event with room left: its confirmed requests are below its limit. */
  predicate Available(events: E.EventStore, rs: RS.RequestStore, id: nat) {
    id in events && RS.ConfirmedCount(rs, id) < events[id].participantLimit
  }

  function EarlierFirst(events: E.EventStore): nat -> int {
    id => if id in events then events[id].eventDate else 0
  }

  function FewerViewsFirst(events: E.EventStore): nat -> int {
    id => if id in events then events[id].views else 0
  }

  /** Stored events, earlier dates first. */
  predicate DateAscending(events: E.EventStore, s: seq<nat>) {
    forall i, j | 0 <= i < j < |s| :: s[i] in events && s[j] in events && events[s[i]].eventDate <= events[s[j]].eventDate
  }

  /** Stored events, fewer views first. */
  predicate ViewsAscending(events: E.EventStore, s: seq<nat>) {
    forall i, j | 0 <= i < j < |s| :: s[i] in events && s[j] in events && events[s[i]].views <= events[s[j]].views
  }

  lemma EarlierFirstAscends(events: E.EventStore, s: seq<nat>)
    requires forall id | id in s :: id in events
    requires SortedBy(s, EarlierFirst(events))
    ensures DateAscending(events, s)
  {
    forall i, j | 0 <= i < j < |s| ensures events[s[i]].eventDate <= events[s[j]].eventDate {
      assert EarlierFirst(events)(s[i]) <= EarlierFirst(events)(s[j]);
    }
  }

  lemma FewerViewsFirstAscends(events: E.EventStore, s: seq<nat>)
    requires forall id | id in s :: id in events
    requires SortedBy(s, FewerViewsFirst(events))
    ensures ViewsAscending(events, s)
  {
    forall i, j | 0 <= i < j < |s| ensures events[s[i]].views <= events[s[j]].views {
      assert FewerViewsFirst(events)(s[i]) <= FewerViewsFirst(events)(s[j]);
    }
  }

  /** An event the public listing shows, given the lower date bound in force. */
  predicate Listed(events: E.EventStore, rs: RS.RequestStore, q: PublicQuery, start: Instant, id: nat) {
    && id in events
    && MatchesPublished(events[id], q, start)
    && (q.onlyAvailable ==> Available(events, rs, id))
  }

  /** The row test of `findPublishedEvents`. */
  function PublishedMatch(events: E.EventStore, q: PublicQuery, start: Instant): nat -> bool {
    (id: nat) => id in events && MatchesPublished(events[id], q, start)
  }

  /** The in-memory availability test. */
  function RoomLeft(events: E.EventStore, rs: RS.RequestStore): nat -> bool {
    (id: nat) => Available(events, rs, id)
  }

  /** Both filters over a scan keep exactly the listed events, in scan order. */
  lemma SelectionFacts(events: E.EventStore, rs: RS.RequestStore, q: PublicQuery,
                       scan: seq<nat>, start: Instant)
    ensures var found := Filter(scan, PublishedMatch(events, q, start));
      var r := if q.onlyAvailable then Filter(found, RoomLeft(events, rs)) else found;
      && (forall id | id in scan :: id in events ==> (id in r <==> Listed(events, rs, q, start, id)))
      && (forall id | id in r :: id in scan && id in events)
      && Kept(r, scan)
  {
    var found := Filter(scan, PublishedMatch(events, q, start));
    FilterMembershipAll(scan, PublishedMatch(events, q, start));
    FilterMembershipAll(found, RoomLeft(events, rs));
    FilterTwiceKept(scan, PublishedMatch(events, q, start), RoomLeft(events, rs));
  }

  /** The rows `findPublishedEvents` returns, narrowed to available events when asked. */
  function SelectPublished(events: E.EventStore, rs: RS.RequestStore, q: PublicQuery,
                           scan: seq<nat>, start: Instant): (r: seq<nat>)
    requires IsScanOf(scan, events)
    ensures forall id :: id in r <==> Listed(events, rs, q, start, id)
    ensures forall id | id in r :: id in events
    ensures Kept(r, scan)
  {
    SelectionFacts(events, rs, q, scan, start);
    var found := Filter(scan, PublishedMatch(events, q, start));
    if q.onlyAvailable then Filter(found, RoomLeft(events, rs)) else found
  }

  /** The in-memory sort by the key `EventSort` names; an unknown name fails in `valueOf`. */
  function SortListing(events: E.EventStore, ids: seq<nat>, name: string): (r: Result<seq<nat>>)
    requires forall id | id in ids :: id in events
    ensures r.Err? <==> name !in {"EVENT_DATE", "VIEWS"}
    ensures r.Err? ==> r.error == IllegalArgument
    ensures r.Ok? ==> multiset(r.value) == multiset(ids)
    ensures r.Ok? && name == "EVENT_DATE" ==> DateAscending(events, r.value)
    ensures r.Ok? && name == "VIEWS" ==> ViewsAscending(events, r.value)
  {
    if name == "EVENT_DATE" then
      var sorted := SortBy(ids, EarlierFirst(events));
      SameElements(ids, sorted);
      EarlierFirstAscends(events, sorted);
      Ok(sorted)
    else if name == "VIEWS" then
      var sorted := SortBy(ids, FewerViewsFirst(events));
      SameElements(ids, sorted);
      FewerViewsFirstAscends(events, sorted);
      Ok(sorted)
    else Err(IllegalArgument)
  }

  /** No sort, or one `EventSort` declares. */
  predicate KnownSort(sort: Option<string>) {
    sort.None? || sort.value in {"EVENT_DATE", "VIEWS"}
  }

  /** The listing in the order asked for: as selected when no sort is named. */
  function OrderListing(events: E.EventStore, ids: seq<nat>, sort: Option<string>): (r: Result<seq<nat>>)
    requires forall id | id in ids :: id in events
    ensures r.Ok? <==> KnownSort(sort)
    ensures r.Err? ==> r.error == IllegalArgument
    ensures r.Ok? ==> forall id :: id in r.value <==> id in ids
    ensures sort.None? ==> r == Ok(ids)
    ensures r.Ok? && sort == Some("EVENT_DATE") ==> DateAscending(events, r.value)
    ensures r.Ok? && sort == Some("VIEWS") ==> ViewsAscending(events, r.value)
  {
    if sort.None? then Ok(ids)
    else
      var sorted :- SortListing(events, ids, sort.value);
      SameElements(ids, sorted);
      Ok(sorted)
  }

  function GetPublishedEvents(events: E.EventStore, rs: RS.RequestStore, q: PublicQuery,
                              scan: seq<nat>, now: Instant): (r: Result<seq<nat>>)
    requires IsScanOf(scan, events)
    ensures r.Ok? <==>
      !(q.rangeStart.Some? && q.rangeEnd.Some? && q.rangeStart.value > q.rangeEnd.value) && KnownSort(q.sort)
    // a start after the end is refused before anything else
    ensures q.rangeStart.Some? && q.rangeEnd.Some? && q.rangeStart.value > q.rangeEnd.value ==>
      r == Err(ValidationRequest)
    ensures r.Err? && r.error != ValidationRequest ==> r.error == IllegalArgument && !KnownSort(q.sort)
    ensures r.Ok? ==> forall id :: id in r.value <==> Listed(events, rs, q, q.rangeStart.GetOr(now), id)
    ensures r.Ok? && q.sort == Some("EVENT_DATE") ==> DateAscending(events, r.value)
    ensures r.Ok? && q.sort == Some("VIEWS") ==> ViewsAscending(events, r.value)
    // unsorted, the listing is the selection in the order the table yields it
    ensures r.Ok? && q.sort.None? ==> r.value == SelectPublished(events, rs, q, scan, q.rangeStart.GetOr(now))
    ensures r.Ok? && q.sort.None? ==> Kept(r.value, scan)
  {
    if q.rangeStart.Some? && q.rangeEnd.Some? && q.rangeStart.value > q.rangeEnd.value then
      Err(ValidationRequest)
    else
      var kept := SelectPublished(events, rs, q, scan, q.rangeStart.GetOr(now));
      OrderListing(events, kept, q.sort)
  }

  /** With `onlyAvailable`, an event without a positive limit is never listed: an
      unlimited event (limit 0) counts as full. */
  lemma OnlyAvailableDropsUnlimited(events: E.EventStore, rs: RS.RequestStore, q: PublicQuery,
                                    scan: seq<nat>, now: Instant, id: nat)
    requires IsScanOf(scan, events) && q.onlyAvailable
    requires id in events && events[id].participantLimit <= 0
    ensures var r := GetPublishedEvents(events, rs, q, scan, now); r.Ok? ==> id !in r.value
  {
  }

  /** Without a start, the listing begins at `now`: nothing already past is shown. */
  lemma NoPastEvents(events: E.EventStore, rs: RS.RequestStore, q: PublicQuery, scan: seq<nat>, now: Instant)
    requires IsScanOf(scan, events) && q.rangeStart.None?
    ensures var r := GetPublishedEvents(events, rs, q, scan, now);
      r.Ok? ==> forall id | id in r.value :: id in events && events[id].eventDate >= now
  {
  }
}
