/** The bean-validation constraints declared on the request bodies that
    create things (the New*Dto classes), as predicates, plus the defaults
    their fields take when the client omits them. A body that breaks a
    constraint is refused with MethodArgumentNotValid before any service runs. */
module Dto {
  import opened Common
  import opened Text

  /** `@NotNull @NotBlank @Size(min = lo, max = hi)` on one string field. */
  predicate RequiredText(s: Option<string>, lo: nat, hi: nat) {
    NotBlank(s) && SizeWithin(s, lo, hi)
  }

  /** What `RequiredText` accepts, stated without trimming: present, some character
      above U+0020, UTF-16 length in range. */
  predicate PresentText(s: Option<string>, lo: nat, hi: nat) {
    s.Some? && HasVisibleChar(s.value) && lo <= Utf16Length(s.value) <= hi
  }

  lemma RequiredTextIff(s: Option<string>, lo: nat, hi: nat)
    ensures RequiredText(s, lo, hi) <==> PresentText(s, lo, hi)
  {
    if s.Some? {
      TrimEmptyIff(s.value);
    }
  }

  // ---- NewCommentDto ----

  predicate ValidCommentText(text: Option<string>) {
    RequiredText(text, 10, 512)
  }

  /** Null, whitespace-only, shorter than 10 or longer than 512 is refused; anything else passes. */
  lemma CommentTextAcceptedIff(text: Option<string>)
    ensures ValidCommentText(text) <==> text.Some? && HasVisibleChar(text.value) && 10 <= Utf16Length(text.value) <= 512
  {
    RequiredTextIff(text, 10, 512);
  }

  /** Lengths are Java's: five characters above U+FFFF are ten code units, enough
      for a comment. */
  lemma FiveEmojiComment()
    ensures var text := "\U{1F600}\U{1F600}\U{1F600}\U{1F600}\U{1F600}";
      |text| == 5 && Utf16Length(text) == 10 && ValidCommentText(Some(text))
  {
    var text := "\U{1F600}\U{1F600}\U{1F600}\U{1F600}\U{1F600}";
    assert !IsTrimmable(text[0]);
    TrimEmptyIff(text);
  }

  // ---- NewCategoryDto ----

  predicate ValidCategoryName(name: Option<string>) {
    RequiredText(name, 1, 50)
  }

  /** Null, whitespace-only or longer than 50 is refused; any non-blank name of length 1..50 passes. */
  lemma CategoryNameAcceptedIff(name: Option<string>)
    ensures ValidCategoryName(name) <==> name.Some? && HasVisibleChar(name.value) && Utf16Length(name.value) <= 50
  {
    RequiredTextIff(name, 1, 50);
  }

  // ---- NewUserRequestDto ----

  datatype NewUserRequest = NewUserRequest(name: Option<string>, email: Option<string>)

  /** The length constraints of a new user; the @Email format rule is not part of this model. */
  predicate ValidUserRequest(u: NewUserRequest) {
    RequiredText(u.name, 2, 250) && u.email.Some? && SizeWithin(u.email, 6, 254)
  }

  lemma UserRequestAcceptedIff(u: NewUserRequest)
    ensures ValidUserRequest(u) <==>
      && u.name.Some? && HasVisibleChar(u.name.value) && 2 <= Utf16Length(u.name.value) <= 250
      && u.email.Some? && 6 <= Utf16Length(u.email.value) <= 254
  {
    RequiredTextIff(u.name, 2, 250);
  }

  // ---- NewCompilationDto ----

  /** The body as sent: `None` marks an omitted or null field. `pinned` is a boxed
      `Boolean`, so an explicit `null` reaches the object as null. */
  datatype NewCompilationBody = NewCompilationBody(events: Option<seq<nat>>, pinned: Field<bool>, title: Option<string>)

  /** The body after binding and validation; `pinned` is `None` for a null `Boolean`. */
  datatype NewCompilation = NewCompilation(events: Option<seq<nat>>, pinned: Option<bool>, title: string)

  /** A boxed field: leaving it out keeps the initial value, `null` stays null. */
  function BindBoxed<T>(f: Field<T>, initial: T): Option<T> {
    match f
    case Omitted => Some(initial)
    case Null => None
    case Sent(v) => Some(v)
  }

  function ValidateCompilation(b: NewCompilationBody): (r: Result<NewCompilation>)
    ensures r.Ok? <==> b.title.Some? && HasVisibleChar(b.title.value) && Utf16Length(b.title.value) <= 50
    ensures r.Err? ==> r.error == MethodArgumentNotValid
    ensures r.Ok? ==> r.value.title == b.title.value
    ensures r.Ok? ==> r.value.events == b.events
    ensures r.Ok? && b.pinned.Omitted? ==> r.value.pinned == Some(false)
    ensures r.Ok? && b.pinned.Null? ==> r.value.pinned.None?
    ensures r.Ok? && b.pinned.Sent? ==> r.value.pinned == Some(b.pinned.value)
  {
    RequiredTextIff(b.title, 1, 50);
    if RequiredText(b.title, 1, 50) then
      Ok(NewCompilation(b.events, BindBoxed(b.pinned, false), b.title.value))
    else
      Err(MethodArgumentNotValid)
  }

  // ---- NewEventDto ----

  /** Coordinates are copied verbatim and take part in no rule. */
  datatype Location = Location(lat: real, lon: real)

  /** A body field bound onto a Java primitive. Leaving it out keeps the field's
      initial value; an explicit `null` gives the primitive's default, 0 or false;
      a value is kept. */
  datatype Field<T> = Omitted | Null | Sent(value: T)

  /** The body as sent. For the reference-typed fields `None` stands for an
      omitted field and an explicit `null` alike. */
  datatype NewEventBody = NewEventBody(
    title: Option<string>,
    annotation: Option<string>,
    category: Field<int>,
    description: Option<string>,
    eventDate: Option<Instant>,
    location: Option<Location>,
    paid: Field<bool>,
    participantLimit: Field<int>,
    requestModeration: Field<bool>)

  /** A new event after binding, defaults and validation. */
  datatype EventDraft = EventDraft(
    title: string,
    annotation: string,
    category: nat,
    description: string,
    eventDate: Instant,
    location: Location,
    paid: bool,
    participantLimit: int,
    requestModeration: bool)

  predicate ValidEventBody(b: NewEventBody) {
    && RequiredText(b.title, 3, 120)
    && RequiredText(b.annotation, 20, 2000)
    && RequiredText(b.description, 20, 7000)
    && (b.category.Sent? ==> b.category.value >= 0)
    && b.eventDate.Some?
    && b.location.Some?
  }

  /** What a primitive field holds after binding, given its initial value and the
      primitive's default. */
  function BindPrimitive<T>(f: Field<T>, initial: T, default: T): T {
    match f
    case Omitted => initial
    case Null => default
    case Sent(v) => v
  }

  /** Binds a present new-event body. Omitted `paid`, `participantLimit`,
      `requestModeration` and `category` take false, 0, true and 0; sent as `null`
      they take false, 0, false and 0. */
  function Bind(b: NewEventBody): (d: EventDraft)
    requires b.title.Some? && b.annotation.Some? && b.description.Some?
    requires b.eventDate.Some? && b.location.Some? && (b.category.Sent? ==> b.category.value >= 0)
    ensures d.title == b.title.value && d.annotation == b.annotation.value
    ensures d.description == b.description.value
    ensures d.eventDate == b.eventDate.value && d.location == b.location.value
    ensures !b.category.Sent? ==> d.category == 0
    ensures b.category.Sent? ==> d.category == b.category.value
    ensures d.paid <==> b.paid == Sent(true)
    ensures !b.participantLimit.Sent? ==> d.participantLimit == 0
    ensures b.participantLimit.Sent? ==> d.participantLimit == b.participantLimit.value
    ensures d.requestModeration <==> b.requestModeration == Omitted || b.requestModeration == Sent(true)
  {
    EventDraft(
      b.title.value, b.annotation.value, BindPrimitive(b.category, 0, 0), b.description.value,
      b.eventDate.value, b.location.value,
      BindPrimitive(b.paid, false, false), BindPrimitive(b.participantLimit, 0, 0),
      BindPrimitive(b.requestModeration, true, false))
  }

  /** Validates a new-event body and binds it; a constraint violation is refused. */
  function ValidateEvent(b: NewEventBody): (r: Result<EventDraft>)
    ensures r.Ok? <==>
      && PresentText(b.title, 3, 120)
      && PresentText(b.annotation, 20, 2000)
      && PresentText(b.description, 20, 7000)
      && (b.category.Sent? ==> b.category.value >= 0)
      && b.eventDate.Some? && b.location.Some?
    ensures r.Err? ==> r.error == MethodArgumentNotValid
    ensures r.Ok? ==> r.value == Bind(b)
  {
    RequiredTextIff(b.title, 3, 120);
    RequiredTextIff(b.annotation, 20, 2000);
    RequiredTextIff(b.description, 20, 7000);
    if ValidEventBody(b) then Ok(Bind(b)) else Err(MethodArgumentNotValid)
  }

  /** The body puts no bound on the participant limit: a negative one passes. */
  lemma NegativeLimitPassesBody(b: NewEventBody, limit: int)
    requires ValidEventBody(b) && limit < 0
    ensures ValidateEvent(b.(participantLimit := Sent(limit))).Ok?
    ensures ValidateEvent(b.(participantLimit := Sent(limit))).value.participantLimit == limit
  {
  }

  /** Leaving `requestModeration` out keeps moderation on; sending it as `null` turns
      it off, as sending false does. */
  lemma NullModerationIsOff(b: NewEventBody)
    requires ValidEventBody(b)
    ensures ValidateEvent(b.(requestModeration := Omitted)).value.requestModeration
    ensures !ValidateEvent(b.(requestModeration := Null)).value.requestModeration
    ensures ValidateEvent(b.(requestModeration := Null)) == ValidateEvent(b.(requestModeration := Sent(false)))
  {
  }
}
