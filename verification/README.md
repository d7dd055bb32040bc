# Explore-with-me main service: the rule layer in Dafny

This project models the business rules of the `main-service` of an event-listing
backend. The rules covered are:

- events that users organise;
- participation requests with moderation and a participant limit;
- comments under administrator moderation;
- the category registry;
- the validation rules on request bodies;
- the mapping from exceptions to HTTP responses.

The project also proves properties of these rules.

Each operation is a pure function from a store and its arguments to
`Result<...>`. The store is a `map<id, record>`. A failed call returns an error kind and
no store. So a failing transactional method leaves the caller's store as it was.
The clock is an integer parameter `now`, in seconds. An id the database would generate
is a parameter, with the precondition that it is fresh. The list a query returns is
computed over `scan`, the order in which the table yields its rows.

| file | module | models |
|---|---|---|
| common.dfy | `Common` | `Option`, `Result`, the exception kinds, the two-hour lead time |
| text.dfy | `Text` | `String.trim`, `@NotBlank`/`@Size`, ASCII lower-casing, substring search |
| dto.dfy | `Dto` | the New*Dto constraints and defaults |
| error_handler.dfy | `ErrorHandler` | the controller advice |
| seq_ops.dfy | `SeqOps` | filtering and key-ordered sorting of id lists |
| events.dfy | `Events` | event create, user and admin updates, the view counter, repository look-ups |
| event_queries.dfy | `EventQueries` | the admin and public event searches |
| request_store.dfy | `RequestStore` | the request repository's queries and bulk update |
| request_service.dfy | `RequestService` | request create, cancel, listing, the batch confirm/reject walk |
| comments.dfy | `Comments` | comment create, edit, delete and moderation |
| categories.dfy | `Categories` | category create, rename and delete |

Some of the code's behaviour is modelled as it is, though a reader might expect otherwise:

- The duplicate-request check matches a request in any status, CANCELED included.
- Cancelling needs no ownership of the request.
- The user path of an event update does not compare the caller with the initiator.
- The batch confirm/reject takes the list that `findAllById` returned as an input.
- The batch confirm/reject checks neither the caller's ownership of the event nor the event of the requests.
- The capacity guard of the batch compares the confirmed count with the limit using `==`. So a count already above the limit lets the walk run, and the walk then rejects everything.
- Requests that the cascade rejects are not in the result.
- The admin path copies a negative participant limit.
- The one-hour publish guard is modelled as written. `PublishGuardInert` proves that it cannot fire.
- A `ForbiddenException` is answered 409 CONFLICT, not 403.
- `@Size` bounds count UTF-16 code units, as `String.length()` does. A character above U+FFFF counts twice.
- In a new event body, an omitted `requestModeration` keeps its initial value `true`, but an explicit JSON `null` binds the primitive to `false`. Likewise an explicit `null` gives `paid` false and the two numbers 0.
- In a new compilation, `pinned` is a boxed `Boolean`: an omitted field is false, but an explicit `null` stays null.
- The admin path can lower the participant limit of a PUBLISHED event below its confirmed count.

## Model

| member | source | states |
|---|---|---|
| Text.Utf16LengthAppend | main-service/src/main/java/ru/practicum/comment/dto/NewCommentDto.java:17 | the UTF-16 length of a concatenation is the sum of the lengths, so each character contributes its own units |
| Text.Utf16LengthBmp | main-service/src/main/java/ru/practicum/comment/dto/NewCommentDto.java:17 | a string with no character above U+FFFF has as many UTF-16 units as characters |
| Text.TrimEmptyIff | main-service/src/main/java/ru/practicum/comment/dto/NewCommentDto.java:16 | `@NotBlank` trims characters up to U+0020, so a string is blank exactly when it has no character above U+0020 |
| Dto.RequiredTextIff | main-service/src/main/java/ru/practicum/event/dto/NewEventDto.java:21-24 | `@NotNull @NotBlank @Size` accepts exactly a present string with a visible character and its UTF-16 length in range |
| Dto.CommentTextAcceptedIff | main-service/src/main/java/ru/practicum/comment/dto/NewCommentDto.java:16-18 | a comment text is accepted iff it is non-null, not whitespace-only and 10..512 UTF-16 units long |
| Dto.FiveEmojiComment | main-service/src/main/java/ru/practicum/comment/dto/NewCommentDto.java:16-18 | five characters above U+FFFF make ten UTF-16 units, and such a comment is accepted |
| Dto.CategoryNameAcceptedIff | main-service/src/main/java/ru/practicum/category/dto/NewCategoryDto.java:16-19 | a category name is accepted iff it is non-null, not whitespace-only and at most 50 UTF-16 units long |
| Dto.UserRequestAcceptedIff | main-service/src/main/java/ru/practicum/user/dto/NewUserRequestDto.java:19-27 | a new user is accepted iff the name is non-blank and 2..250 UTF-16 units long, and the email is present and 6..254 units long |
| Dto.ValidateCompilation | main-service/src/main/java/ru/practicum/compilation/dto/NewCompilationDto.java:19-25 | the title must be non-blank and at most 50 UTF-16 units long; an omitted `pinned` is false, an explicit null stays null and a sent value is kept; `events` passes unchecked |
| Dto.ValidateEvent | main-service/src/main/java/ru/practicum/event/dto/NewEventDto.java:21-46 | the body is accepted iff title is 3..120, annotation 20..2000, description 20..7000 UTF-16 units (all non-blank), a sent category is not negative, and date and location are present; the result carries the bound values of `Dto.Bind` |
| Dto.Bind | main-service/src/main/java/ru/practicum/event/dto/NewEventDto.java:31-46 | sent values are kept; omitted `category`, `paid`, `participantLimit` and `requestModeration` take the initial values 0, false, 0 and true; an explicit null gives 0, false, 0 and false |
| Dto.NullModerationIsOff | main-service/src/main/java/ru/practicum/event/dto/NewEventDto.java:46 | an omitted `requestModeration` binds to on, an explicit null to off, and null binds exactly as a sent `false` |
| Dto.NegativeLimitPassesBody | main-service/src/main/java/ru/practicum/event/dto/NewEventDto.java:45 | a negative participant limit passes body validation and reaches the service |
| ErrorHandler.Handle | main-service/src/main/java/ru/practicum/exceptions/ErrorHandler.java:32-76 | 400 exactly for the two validation kinds; 404 exactly for the user, category, event and request not-found kinds; 409 exactly for constraint, data-integrity, forbidden and request-conflict; the reason names the status; comment and compilation not-found are not handled |
| ErrorHandler.ForbiddenIsConflict | main-service/src/main/java/ru/practicum/exceptions/ErrorHandler.java:64-69 | Forbidden is answered 409 CONFLICT, and no exception is answered 403 |
| SeqOps.Filter | main-service/src/main/java/ru/practicum/event/EventServiceImpl.java:285-287 | keeps, with their multiplicities and in their order, exactly the ids the predicate accepts |
| SeqOps.SortBy | main-service/src/main/java/ru/practicum/event/EventServiceImpl.java:289-296 | the result is ordered by the key and is a permutation of the input |
| Events.CreateEvent | main-service/src/main/java/ru/practicum/event/EventServiceImpl.java:57-78 | unknown user, then unknown category, then a negative limit, then a date before now + 2h are refused in that order; a new event is PENDING with no views, initiated by the caller, with the draft's fields |
| Events.ApplyPatch | main-service/src/main/java/ru/practicum/event/EventServiceImpl.java:124-155 | every null field keeps the stored value; every non-null field replaces it; state, initiator, creation time, publication time and views are untouched |
| Events.PatchLaws | main-service/src/main/java/ru/practicum/event/EventServiceImpl.java:124-155 | an all-null patch changes nothing, and a patch applied twice equals the patch applied once |
| Events.UpdateEventByUser | main-service/src/main/java/ru/practicum/event/EventServiceImpl.java:103-166 | a PUBLISHED event is Forbidden; then a new date before now + 2h is ValidationRequest, then a negative new limit is ValidationRequest, then an unknown new category is CategoryNotFound; the patch applies; CANCEL_REVIEW leads to CANCELED, SEND_TO_REVIEW to PENDING, no action keeps the state |
| Events.UserUpdateIgnoresCaller | main-service/src/main/java/ru/practicum/event/EventServiceImpl.java:106-111 | any two existing users get the same outcome: the caller is never compared with the initiator |
| Events.ApplyAdminAction | main-service/src/main/java/ru/practicum/event/EventServiceImpl.java:174-192 | publishing needs PENDING and stamps `publishedOn = now`; rejecting needs an unpublished event and leads to CANCELED; neither leaves PUBLISHED |
| Events.PublishGuardInert | main-service/src/main/java/ru/practicum/event/EventServiceImpl.java:176-184 | with `publishedOn` set only on published events, publishing succeeds exactly on PENDING events; the one-hour guard never fires |
| Events.UpdateEventByAdmin | main-service/src/main/java/ru/practicum/event/EventServiceImpl.java:171-235 | the action is tried first; then a new date before now + 2h is ValidationRequest, then an unknown new category is CategoryNotFound; the patch applies in any state, a negative limit included |
| Events.NothingLeavesPublished | main-service/src/main/java/ru/practicum/event/EventServiceImpl.java:109-111 | no allowed transition leaves PUBLISHED |
| Events.RunKeepsPublished | main-service/src/main/java/ru/practicum/event/EventServiceImpl.java:56-235 | over any sequence of creates, updates and views, `publishedOn` stays set only on published events, and published events stay published |
| Events.IncrementViews | main-service/src/main/java/ru/practicum/event/EventRepository.java:54-57 | adds one to the event's views and changes nothing else |
| Events.IncrementTimesAddsN | main-service/src/main/java/ru/practicum/event/EventRepository.java:56 | n increments add exactly n views and change nothing else |
| Events.FindByIdAndState | main-service/src/main/java/ru/practicum/event/EventRepository.java:52 | finds the event exactly when it is stored in that state |
| Events.FindByIdAndInitiator | main-service/src/main/java/ru/practicum/event/EventRepository.java:18 | yields the event exactly when the user initiated it |
| Events.FindFirstByCategory | main-service/src/main/java/ru/practicum/event/EventRepository.java:22 | non-null exactly when some event uses the category, and then it names such an event |
| Events.GetPublishedEventById | main-service/src/main/java/ru/practicum/event/EventServiceImpl.java:306-334 | only a PUBLISHED event is found; the answer is the event as read, and the store counts one more view |
| EventQueries.ParseState | main-service/src/main/java/ru/practicum/event/EventServiceImpl.java:338-347 | a name parses exactly when some state has that name, and it parses to that state |
| EventQueries.ParseStateName | main-service/src/main/java/ru/practicum/event/EventServiceImpl.java:342 | every state's name parses back to the state |
| EventQueries.ValidateEventStates | main-service/src/main/java/ru/practicum/event/EventServiceImpl.java:338-347 | succeeds exactly when the list is absent or every name in it is a state's name; otherwise ValidationRequest |
| EventQueries.GetEventsByAdmin | main-service/src/main/java/ru/practicum/event/EventRepository.java:24-37 | lists exactly the events meeting every filter, where an absent or empty list restricts nothing, the start is inclusive and the end exclusive; later dates come first |
| EventQueries.EmptyListsRestrictNothing | main-service/src/main/java/ru/practicum/event/EventRepository.java:25-27 | an empty list filters like an absent one, and a query with no filters admits every event |
| EventQueries.SelectPublished | main-service/src/main/java/ru/practicum/event/EventRepository.java:39-50 | lists exactly the PUBLISHED events that match the text in annotation or description ignoring case, and match the category, paid flag and date window; with `onlyAvailable`, only events with room; the rows keep the order of the scan |
| EventQueries.SortListing | main-service/src/main/java/ru/practicum/event/EventServiceImpl.java:289-298 | EVENT_DATE orders by ascending date, VIEWS by ascending views, and any other name is IllegalArgument; the result keeps the same ids |
| EventQueries.OrderListing | main-service/src/main/java/ru/practicum/event/EventServiceImpl.java:289-298 | succeeds exactly when the sort is absent or a known name; with no sort the ids come back as given; the result keeps the same ids in the requested order, and with no sort in the order the table yields them |
| EventQueries.GetPublishedEvents | main-service/src/main/java/ru/practicum/event/EventServiceImpl.java:270-301 | succeeds exactly when the start is not after the end and the sort is absent or known; a start after the end is ValidationRequest, an unknown sort IllegalArgument; the start defaults to now; the listing holds exactly the matching (and, if asked, available) published events in the requested order, and with no sort in the order the table yields them |
| EventQueries.OnlyAvailableDropsUnlimited | main-service/src/main/java/ru/practicum/event/EventServiceImpl.java:284-288 | with `onlyAvailable`, an event with limit 0 is never listed |
| EventQueries.NoPastEvents | main-service/src/main/java/ru/practicum/event/EventServiceImpl.java:278 | with no start given, no listed event is earlier than now |
| RequestStore.FindByRequesterAndEvent | main-service/src/main/java/ru/practicum/request/RequestRepository.java:14 | finds a request for the pair exactly when one exists, whatever its status |
| RequestStore.FindByRequester | main-service/src/main/java/ru/practicum/request/RequestRepository.java:16 | holds exactly the user's requests |
| RequestStore.FindByEventIn | main-service/src/main/java/ru/practicum/request/RequestRepository.java:20 | holds exactly the requests of the given events |
| RequestStore.BulkUpdateStatus | main-service/src/main/java/ru/practicum/request/RequestRepository.java:22-26 | sets the new status on exactly the requests of the event in the searched status; every other request is unchanged |
| RequestStore.BulkRejectEffect | main-service/src/main/java/ru/practicum/request/RequestRepository.java:23 | after PENDING becomes REJECTED, the event has no pending request, the same confirmed count, and other events' counts are unchanged |
| RequestStore.CountAfterWrite | main-service/src/main/java/ru/practicum/request/RequestRepository.java:18 | overwriting one request moves each count by what the old and the new value contribute |
| RequestStore.UniquePairsIgnoresStatus | main-service/src/main/java/ru/practicum/request/RequestServiceImpl.java:41-45 | changing only statuses keeps at most one request per (requester, event) |
| RequestService.CreateRequest | main-service/src/main/java/ru/practicum/request/RequestServiceImpl.java:37-69 | succeeds exactly with no earlier request for the pair in any status, a caller who is not the initiator, a PUBLISHED event and room left; the new request is CONFIRMED exactly when moderation is off or the limit is 0 |
| RequestService.CreateGuardOrder | main-service/src/main/java/ru/practicum/request/RequestServiceImpl.java:41-57 | each guard on its own yields Forbidden, and a negative limit always refuses |
| RequestService.CreateKeepsCapacity | main-service/src/main/java/ru/practicum/request/RequestServiceImpl.java:54-61 | a successful create never takes an event over its positive limit |
| RequestService.CreateKeepsUniqueness | main-service/src/main/java/ru/practicum/request/RequestServiceImpl.java:41-49 | a successful create keeps one request per pair and never admits an initiator to their own event |
| RequestService.CancelRequest | main-service/src/main/java/ru/practicum/request/RequestServiceImpl.java:72-78 | any existing user cancels any stored request from any status; nothing else changes; a missing request is EntityNotFound |
| RequestService.CancelIdempotent | main-service/src/main/java/ru/practicum/request/RequestServiceImpl.java:72-78 | cancelling twice, by anyone, equals cancelling once |
| RequestService.CancelKeepsCapacity | main-service/src/main/java/ru/practicum/request/RequestServiceImpl.java:76 | a cancel never raises a confirmed count past a limit |
| RequestService.GetParticipationRequests | main-service/src/main/java/ru/practicum/request/RequestServiceImpl.java:81-90 | an existing user gets exactly their own requests |
| RequestService.GetRequestsForUserEvent | main-service/src/main/java/ru/practicum/request/RequestServiceImpl.java:93-104 | the initiator gets exactly the event's requests, and anyone else gets none |
| RequestService.Slots | main-service/src/main/java/ru/practicum/request/RequestServiceImpl.java:134-141 | the number confirmed never exceeds the batch, stops at the limit, and is zero once the count is at or above the limit |
| RequestService.Walk | main-service/src/main/java/ru/practicum/request/RequestServiceImpl.java:130-142 | succeeds exactly when every fetched request is PENDING and none repeats; the confirmed list is the prefix that fits below the limit and the rejected list the rest |
| RequestService.WalkFrame | main-service/src/main/java/ru/practicum/request/RequestServiceImpl.java:130-142 | the walk keeps the same requests and leaves every request it was not given unchanged |
| RequestService.WalkPositions | main-service/src/main/java/ru/practicum/request/RequestServiceImpl.java:134-141 | each fetched request ends CONFIRMED when its position is below the free slots and REJECTED otherwise, with only its status changed |
| RequestService.WalkCounts | main-service/src/main/java/ru/practicum/request/RequestServiceImpl.java:134-141 | walking one event's requests raises its confirmed count by exactly the number confirmed and leaves other events' counts alone |
| RequestService.ConfirmBatch | main-service/src/main/java/ru/practicum/request/RequestServiceImpl.java:130-147 | the confirmed and rejected lists partition the fetched list; the count stays within the limit when it began within it; everything is rejected when it began at or above it |
| RequestService.RejectBatch | main-service/src/main/java/ru/practicum/request/RequestServiceImpl.java:148-157 | every fetched request becomes REJECTED and none is confirmed; a non-PENDING one is Forbidden |
| RequestService.ChangeRequestsStatus | main-service/src/main/java/ru/practicum/request/RequestServiceImpl.java:108-160 | an empty list or a target other than CONFIRMED/REJECTED changes nothing; CONFIRMED with limit 0, moderation off or a full event is Forbidden, and otherwise runs the confirm walk and the cascade; an unknown target name fails; only statuses change |
| RequestService.CascadeRejectsRest | main-service/src/main/java/ru/practicum/request/RequestServiceImpl.java:144-147 | a confirm walk over pending, distinct requests succeeds; if it fills the event, every other PENDING request of the event becomes REJECTED and every other request is unchanged; if not, requests the batch did not name are as they were |
| RequestService.BatchKeepsCapacity | main-service/src/main/java/ru/practicum/request/RequestServiceImpl.java:119-157 | when the fetched requests all belong to the event, no event ends over its positive limit |
| RequestService.BatchKeepsUniqueness | main-service/src/main/java/ru/practicum/request/RequestServiceImpl.java:143 | a batch keeps one request per pair |
| RequestService.BatchOrderingScenario | main-service/src/main/java/ru/practicum/request/RequestServiceImpl.java:130-147 | with two seats and requests 1, 2, 3 confirmed while a fourth waits: 1 and 2 are confirmed, 3 is rejected, and 4 is rejected by the cascade without being reported |
| RequestService.BatchByNonInitiator | main-service/src/main/java/ru/practicum/request/RequestServiceImpl.java:112-114 | a user who did not organise the event confirms its request |
| RequestService.BatchCrossesEvents | main-service/src/main/java/ru/practicum/request/RequestServiceImpl.java:114-143 | a full event's pending request, confirmed through another event, takes the full event to two participants over a limit of one |
| RequestService.ChangeRequestsStatusChecked | main-service/src/main/java/ru/practicum/request/RequestServiceImpl.java:108-160 | a caller who is not the initiator, or a fetched request of another event, is Forbidden; in every other case the result is exactly the as-written batch's |
| RequestService.CheckedBatchKeepsCapacity | main-service/src/main/java/ru/practicum/request/RequestServiceImpl.java:119-157 | with those checks, no batch takes any event over its positive limit |
| RequestService.RunKeepsCapacity | main-service/src/main/java/ru/practicum/request/RequestServiceImpl.java:37-160 | over any sequence of creates, cancels and checked batches against a fixed event store, every event stays within its positive limit |
| RequestService.AdminLimitEditBreaksCapacity | main-service/src/main/java/ru/practicum/event/EventServiceImpl.java:225-232 | lowering the limit of a PUBLISHED event from 2 to 1 while it has two CONFIRMED requests succeeds and leaves it over its limit |
| RequestService.RunKeepsUniqueness | main-service/src/main/java/ru/practicum/request/RequestServiceImpl.java:41-49 | over any sequence of request operations, each (requester, event) pair has at most one request, and no initiator requests their own event |
| Comments.CreateComment | main-service/src/main/java/ru/practicum/comment/CommentServiceImpl.java:38-49 | only a PUBLISHED event takes comments; the new comment is PENDING, by the caller, unpublished |
| Comments.GetEventComments | main-service/src/main/java/ru/practicum/comment/CommentServiceImpl.java:52-58 | NotFound unless the event is PUBLISHED; otherwise exactly that event's comments |
| Comments.GetCommentById | main-service/src/main/java/ru/practicum/comment/CommentServiceImpl.java:61-65 | the stored comment, or CommentNotFound |
| Comments.UpdateComment | main-service/src/main/java/ru/practicum/comment/CommentServiceImpl.java:69-84 | Forbidden for anyone but the author and on a CONFIRMED comment; otherwise the new text, stamped, and back to PENDING, REJECTED included |
| Comments.DeleteComment | main-service/src/main/java/ru/practicum/comment/CommentServiceImpl.java:88-100 | Forbidden for anyone but the author and on a CONFIRMED comment; otherwise exactly that comment is removed |
| Comments.UpdateCommentStatusByAdmin | main-service/src/main/java/ru/practicum/comment/CommentServiceImpl.java:104-115 | from any state, CONFIRMED when asked to confirm and REJECTED otherwise, with `publishedOn = now` |
| Comments.AuthorRunKeepsConfirmed | main-service/src/main/java/ru/practicum/comment/CommentServiceImpl.java:69-100 | no sequence of author operations changes or removes a CONFIRMED comment |
| Comments.RunKeepsModerated | main-service/src/main/java/ru/practicum/comment/CommentServiceImpl.java:38-115 | every comment outside PENDING keeps a moderation time, whatever runs |
| Categories.GetCategoryById | main-service/src/main/java/ru/practicum/category/CategoryServiceImpl.java:41-45 | the stored category when the id is registered, and CategoryNotFound exactly when it is not |
| Categories.CreateCategory | main-service/src/main/java/ru/practicum/category/CategoryServiceImpl.java:49-56 | an existing name is refused with DataIntegrityViolation and nothing stored; otherwise exactly the new category is added |
| Categories.UpdateCategory | main-service/src/main/java/ru/practicum/category/CategoryServiceImpl.java:60-72 | an unknown id is NotFound; another category's name is refused; keeping one's own name changes nothing |
| Categories.DeleteCategory | main-service/src/main/java/ru/practicum/category/CategoryServiceImpl.java:76-85 | an unknown id is NotFound; a category some event uses is Forbidden; otherwise exactly that category goes |
| Categories.CreateKeepsNamesUnique | main-service/src/main/java/ru/practicum/category/CategoryServiceImpl.java:49-56 | create keeps names unique |
| Categories.UpdateKeepsNamesUnique | main-service/src/main/java/ru/practicum/category/CategoryServiceImpl.java:60-72 | rename keeps names unique |
| Categories.DeleteKeepsEventsResolved | main-service/src/main/java/ru/practicum/category/CategoryServiceImpl.java:78-84 | a delete never leaves an event pointing at a missing category |
| Categories.RunKeepsInvariants | main-service/src/main/java/ru/practicum/category/CategoryServiceImpl.java:49-85 | any sequence of registry operations keeps names unique and every event's category registered |

## Left out

- HTTP controllers, routing and `@Positive` path checks: they are framework plumbing.
- The stats-service calls (`addHit`, `getCountHits`): they are network I/O to another service.
- Logging: it has side effects only.
- Paging with `PageRequest.of(from / size, size)`: it is library behaviour. The lists here are unpaged.
- Date parsing and formatting: instants are integer seconds, and `now` is a parameter.
- Location coordinates: they are carried as `real` and take part in no rule.
- `UserServiceImpl`: it passes through to the repository.
- The `@Email` format rule: its semantics are defined by the library. Only the email's length is checked.
- JPA specifics: the lazy proxy of `getReferenceById` appears only as the `EntityNotFound` kind. The double casts in the native query are not modelled, and neither is SQL NULL arithmetic on views.
- Concurrency: each call is one atomic step. The race between two concurrent creates is not expressed.
- The update DTOs (`UpdateEventUserRequestDto`, `UpdateEventAdminRequestDto`) are not part of this model. Their own constraints, if any, are not checked.
- `EventMapper` is not part of this model. Its `countConfirmedRequests` is taken to be the number of CONFIRMED requests of the event.
- `EventSort` is not part of this model. It is taken to declare exactly EVENT_DATE and VIEWS, so any other name fails in `valueOf` before the `default` branch.
- LIKE wildcards inside the search text are treated as literal characters. Lower-casing covers ASCII only.
- SeqOps.SortBy: does not state that the sort is stable, although `List.sort` is.
- EventQueries.GetPublishedEvents: states membership, order and, with no sort, the scan order, but not multiplicity. Each stored event appears once in a scan.
- RequestService.ChangeRequestsStatus: `findAllById` is an input. Its order and content are whatever the repository returned, restricted to stored requests.
- Dto.UserRequestAcceptedIff: the `@Email` format rule is left out, so the iff states only the presence and length constraints; the real validation also refuses a malformed email.
- RequestService.RunKeepsCapacity: the event store is held fixed during the run. An administrator's edit of the participant limit can break the invariant, as `AdminLimitEditBreaksCapacity` shows.
- Events.Step, RequestService.Step, Comments.Step, Categories.Step: a create whose generated id is already taken is treated as a no-op, because the database never generates such an id.

## Findings

| source | as written | input that shows it | evidently intended | confidence | as-written member | corrected member |
|---|---|---|---|---|---|---|
| main-service/src/main/java/ru/practicum/request/RequestServiceImpl.java:112-114 | the batch checks that the caller exists, never that the caller organised the event | user 7 confirms a pending request of event 1, which user 0 organised | only the event's initiator decides on its requests, as the listing of requests already assumes | medium, not executed | RequestService.BatchByNonInitiator | RequestService.ChangeRequestsStatusChecked |
| main-service/src/main/java/ru/practicum/request/RequestServiceImpl.java:114-143 | the fetched requests are walked under this event's limit, whatever event they belong to | event 2 is full at limit 1; its pending request is confirmed through event 1, and event 2 ends with 2 confirmed | only requests of the event are walked, so no event exceeds its limit | high, not executed | RequestService.BatchCrossesEvents | RequestService.CheckedBatchKeepsCapacity |
