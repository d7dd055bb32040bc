/** Comment moderation: authors write, edit and delete their comments on published
    events; an administrator confirms or rejects them. A confirmed comment is out of
    its author's hands. */
module Comments {
  import opened Common
  import E = Events

  datatype CommentState = Pending | Confirmed | Rejected

  datatype Comment = Comment(
    event: nat,
    author: nat,
    text: string,
    state: CommentState,
    createdOn: Instant,
    updatedOn: Option<Instant>,
    publishedOn: Option<Instant>)

  type CommentStore = map<nat, Comment>

  /** A comment that left PENDING has been through moderation, which stamped it. */
  predicate Moderated(c: Comment) {
    c.state != Pending ==> c.publishedOn.Some?
  }

  predicate AllModerated(cs: CommentStore) {
    forall id | id in cs :: Moderated(cs[id])
  }

  /** A new comment on a published event: PENDING, written by the caller, now. */
  function CreateComment(users: set<nat>, events: E.EventStore, cs: CommentStore, userId: nat, eventId: nat,
                         text: string, newId: nat, now: Instant): (r: Result<(CommentStore, Comment)>)
    requires newId !in cs
    ensures userId !in users ==> r == Err(UserNotFound)
    ensures userId in users ==> (r.Ok? <==> eventId in events && events[eventId].state == E.Published)
    ensures userId in users && r.Err? ==> r.error == EventNotFound
    ensures r.Ok? ==> r.value.0 == cs[newId := r.value.1]
    ensures r.Ok? ==>
      && r.value.1.state == Pending
      && r.value.1.author == userId
      && r.value.1.event == eventId
      && r.value.1.text == text
      && r.value.1.createdOn == now
      && r.value.1.publishedOn.None?
  {
    if userId !in users then Err(UserNotFound)
    else match E.FindByIdAndState(events, eventId, E.Published)
      case None => Err(EventNotFound)
      case Some(_) =>
        var c := Comment(eventId, userId, text, Pending, now, None, None);
        Ok((cs[newId := c], c))
  }

  /** The comments of a published event, in any state. */
  function GetEventComments(events: E.EventStore, cs: CommentStore, eventId: nat): (r: Result<set<nat>>)
    ensures r.Ok? <==> eventId in events && events[eventId].state == E.Published
    ensures r.Err? ==> r.error == EventNotFound
    ensures r.Ok? ==> forall id :: id in r.value <==> id in cs && cs[id].event == eventId
  {
    match E.FindByIdAndState(events, eventId, E.Published)
    case None => Err(EventNotFound)
    case Some(_) => Ok(set id | id in cs && cs[id].event == eventId)
  }

  function GetCommentById(cs: CommentStore, commentId: nat): (r: Result<Comment>)
    ensures r.Ok? <==> commentId in cs
    ensures r.Err? ==> r.error == CommentNotFound
    ensures r.Ok? ==> r.value == cs[commentId]
  {
    if commentId in cs then Ok(cs[commentId]) else Err(CommentNotFound)
  }

  /** The author's checks shared by edit and delete: the comment is theirs and not
      yet confirmed. */
  function AuthorMayChange(users: set<nat>, cs: CommentStore, userId: nat, commentId: nat): (r: Result<Comment>)
    ensures r.Ok? <==>
      userId in users && commentId in cs && cs[commentId].author == userId && cs[commentId].state != Confirmed
    ensures userId !in users ==> r == Err(UserNotFound)
    ensures userId in users && commentId !in cs ==> r == Err(CommentNotFound)
    ensures userId in users && commentId in cs && r.Err? ==> r.error == Forbidden
    ensures r.Ok? ==> r.value == cs[commentId]
  {
    if userId !in users then Err(UserNotFound)
    else if commentId !in cs then Err(CommentNotFound)
    else
      var c := cs[commentId];
      if c.author != userId then Err(Forbidden)
      else if c.state == Confirmed then Err(Forbidden)
      else Ok(c)
  }

  /** The author's edit: the new text, stamped, and back to PENDING — a rejected
      comment too. */
  function UpdateComment(users: set<nat>, cs: CommentStore, userId: nat, commentId: nat,
                         text: string, now: Instant): (r: Result<(CommentStore, Comment)>)
    ensures r.Ok? <==>
      userId in users && commentId in cs && cs[commentId].author == userId && cs[commentId].state != Confirmed
    ensures userId in users && commentId in cs && cs[commentId].author != userId ==> r == Err(Forbidden)
    ensures userId in users && commentId in cs && cs[commentId].state == Confirmed ==> r == Err(Forbidden)
    ensures r.Ok? ==> r.value.0 == cs[commentId := r.value.1]
    ensures r.Ok? ==>
      && r.value.1.text == text
      && r.value.1.state == Pending
      && r.value.1.updatedOn == Some(now)
      && r.value.1.(text := cs[commentId].text, state := cs[commentId].state,
                    updatedOn := cs[commentId].updatedOn) == cs[commentId]
  {
    var c :- AuthorMayChange(users, cs, userId, commentId);
    var c' := c.(text := text, updatedOn := Some(now), state := Pending);
    Ok((cs[commentId := c'], c'))
  }

  /** The author's delete: exactly that comment goes. */
  function DeleteComment(users: set<nat>, cs: CommentStore, userId: nat, commentId: nat): (r: Result<CommentStore>)
    ensures r.Ok? <==>
      userId in users && commentId in cs && cs[commentId].author == userId && cs[commentId].state != Confirmed
    ensures userId in users && commentId in cs && r.Err? ==> r.error == Forbidden
    ensures r.Ok? ==> r.value.Keys == cs.Keys - {commentId}
    ensures r.Ok? ==> forall id | id in r.value :: r.value[id] == cs[id]
  {
    var _ :- AuthorMayChange(users, cs, userId, commentId);
    Ok(cs - {commentId})
  }

  /** Moderation: CONFIRMED or REJECTED from any state, stamped with the time. */
  function UpdateCommentStatusByAdmin(cs: CommentStore, commentId: nat, isConfirm: bool, now: Instant)
    : (r: Result<(CommentStore, Comment)>)
    ensures r.Ok? <==> commentId in cs
    ensures r.Err? ==> r.error == CommentNotFound
    ensures r.Ok? ==> r.value.0 == cs[commentId := r.value.1]
    ensures r.Ok? ==>
      && (r.value.1.state == Confirmed <==> isConfirm)
      && r.value.1.state != Pending
      && r.value.1.publishedOn == Some(now)
      && r.value.1.(state := cs[commentId].state, publishedOn := cs[commentId].publishedOn) == cs[commentId]
  {
    if commentId !in cs then Err(CommentNotFound)
    else
      var c := cs[commentId];
      var c' := c.(state := if isConfirm then Confirmed else Rejected, publishedOn := Some(now));
      Ok((cs[commentId := c'], c'))
  }

  // ---- operation sequences ----

  datatype CommentOp =
    | CreateOp(userId: nat, eventId: nat, text: string, newId: nat, now: Instant)
    | UpdateOp(userId: nat, commentId: nat, text: string, now: Instant)
    | DeleteOp(userId: nat, commentId: nat)
    | ModerateOp(commentId: nat, isConfirm: bool, now: Instant)

  predicate IsAuthorOp(op: CommentOp) {
    !op.ModerateOp?
  }

  /** One operation; a failed one changes nothing, and so does a create whose id is taken. */
  function Step(users: set<nat>, events: E.EventStore, cs: CommentStore, op: CommentOp): CommentStore {
    match op
    case CreateOp(u, e, text, id, now) =>
      if id in cs then cs
      else
        var r := CreateComment(users, events, cs, u, e, text, id, now);
        if r.Ok? then r.value.0 else cs
    case UpdateOp(u, id, text, now) =>
      var r := UpdateComment(users, cs, u, id, text, now);
      if r.Ok? then r.value.0 else cs
    case DeleteOp(u, id) =>
      var r := DeleteComment(users, cs, u, id);
      if r.Ok? then r.value else cs
    case ModerateOp(id, ok, now) =>
      var r := UpdateCommentStatusByAdmin(cs, id, ok, now);
      if r.Ok? then r.value.0 else cs
  }

  function Run(users: set<nat>, events: E.EventStore, cs: CommentStore, ops: seq<CommentOp>): CommentStore
    decreases |ops|
  {
    if |ops| == 0 then cs else Run(users, events, Step(users, events, cs, ops[0]), ops[1..])
  }

  /** An author operation leaves every confirmed comment where and as it was. */
  lemma AuthorStepKeepsConfirmed(users: set<nat>, events: E.EventStore, cs: CommentStore, op: CommentOp, id: nat)
    requires IsAuthorOp(op) && id in cs && cs[id].state == Confirmed
    ensures var cs' := Step(users, events, cs, op); id in cs' && cs'[id] == cs[id]
  {
  }

  /** However many author operations run, a confirmed comment stays exactly as the
      moderator left it: only moderation can change it. */
  lemma {:induction false} AuthorRunKeepsConfirmed(users: set<nat>, events: E.EventStore, cs: CommentStore,
                                                   ops: seq<CommentOp>, id: nat)
    requires forall i | 0 <= i < |ops| :: IsAuthorOp(ops[i])
    requires id in cs && cs[id].state == Confirmed
    ensures var cs' := Run(users, events, cs, ops); id in cs' && cs'[id] == cs[id]
    decreases |ops|
  {
    if |ops| > 0 {
      AuthorStepKeepsConfirmed(users, events, cs, ops[0], id);
      AuthorRunKeepsConfirmed(users, events, Step(users, events, cs, ops[0]), ops[1..], id);
    }
  }

  lemma StepKeepsModerated(users: set<nat>, events: E.EventStore, cs: CommentStore, op: CommentOp)
    requires AllModerated(cs)
    ensures AllModerated(Step(users, events, cs, op))
  {
  }

  /** Every comment outside PENDING carries its moderation time, whatever runs. */
  lemma {:induction false} RunKeepsModerated(users: set<nat>, events: E.EventStore, cs: CommentStore,
                                             ops: seq<CommentOp>)
    requires AllModerated(cs)
    ensures AllModerated(Run(users, events, cs, ops))
    decreases |ops|
  {
    if |ops| > 0 {
      StepKeepsModerated(users, events, cs, ops[0]);
      RunKeepsModerated(users, events, Step(users, events, cs, ops[0]), ops[1..]);
    }
  }
}
