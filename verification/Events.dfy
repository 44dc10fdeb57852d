/** Audit events: what a writer requests, what is stored, what a reader filters by, and the
  checks an event passes on its way in and on its way out. */
module Events {
  import opened Wrappers
  import opened Order
  import opened Time
  import opened Rfc3339
  import opened Json
  import opened Metadata
  import opened Redaction
  import opened Identity
  import opened Utf8

  datatype Outcome = Success | Failure | Denied
  datatype Severity = Info | Warning | Critical

  datatype Actor = Actor(kind: string, id: Option<string>, display: Option<string>)
  datatype Scope = Scope(scopeModule: Option<string>, scopeType: string, id: string, display: Option<string>)
  datatype Resource = Resource(resourceType: string, id: string, display: Option<string>)
  datatype Context = Context(
    correlationId: Option<string>, causationId: Option<string>, requestId: Option<string>, storyId: Option<string>)

  datatype AppendRequest = AppendRequest(
    eventName: string, action: string, outcome: Outcome, severity: Severity, actor: Actor,
    scope: Option<Scope>, resource: Option<Resource>, context: Option<Context>, reason: Option<string>,
    metadata: seq<Member>, occurredAt: string, idempotencyKey: Option<string>)

  datatype Intent = Intent(
    id: string, eventName: string, sourceInstance: string, action: string, outcome: Outcome, severity: Severity,
    actorKind: string, actorId: Option<string>, actorDisplay: Option<string>,
    scopeModule: Option<string>, scopeType: Option<string>, scopeId: Option<string>, scopeDisplay: Option<string>,
    resourceType: Option<string>, resourceId: Option<string>, resourceDisplay: Option<string>,
    correlationId: Option<string>, causationId: Option<string>, requestId: Option<string>, storyId: Option<string>,
    reason: Option<string>, metadata: seq<Member>, occurredAt: DateTime)

  /** A stored event is an intent and the time the store kept it. */
  datatype StoredEvent = StoredEvent(intent: Intent, createdAt: DateTime)

  // ---- Text limits ----

  predicate IsControl(c: char) { c < ' ' || 0x7F as char <= c <= 0x9F as char }

  predicate NoControl(s: string) {
    s == [] || (!IsControl(s[0]) && NoControl(s[1..]))
  }

  predicate ValidRequired(value: string, maximum: nat) {
    value != "" && |value| <= maximum && NoControl(value)
  }

  predicate ValidOptional(value: Option<string>, maximum: nat) {
    value.Some? ==> ValidRequired(value.value, maximum)
  }

  predicate KeyChar(c: char) {
    '0' <= c <= '9' || 'a' <= c <= 'z' || 'A' <= c <= 'Z' || c == '.' || c == '_' || c == ':' || c == '-'
  }

  predicate ValidKey(key: string) {
    0 < |key| <= 256 && forall i :: 0 <= i < |key| ==> KeyChar(key[i])
  }

  // ---- The limits, character by character ----

  /** Not empty, not too long, and no C0 or C1 control character and no DEL. */
  predicate TextAllowed(s: string, maximum: nat) {
    0 < |s| <= maximum && forall c :: c in s ==> 0x20 <= c as int < 0x7F || 0x9F < c as int
  }

  predicate OptionalAllowed(s: Option<string>, maximum: nat) {
    s.Some? ==> TextAllowed(s.value, maximum)
  }

  lemma ControlExactly(c: char)
    ensures !IsControl(c) <==> 0x20 <= c as int < 0x7F || 0x9F < c as int
  {}

  lemma {:induction false} NoControlExactly(s: string)
    ensures NoControl(s) <==> forall c :: c in s ==> 0x20 <= c as int < 0x7F || 0x9F < c as int
  {
    if s != [] {
      hide IsControl;
      ControlExactly(s[0]);
      NoControlExactly(s[1..]);
      assert forall c :: c in s <==> c == s[0] || c in s[1..];
      assert s[0] in s;
    }
  }

  lemma TextExactly(s: string, maximum: nat)
    ensures ValidRequired(s, maximum) <==> TextAllowed(s, maximum)
  {
    NoControlExactly(s);
  }

  lemma OptionalExactly(s: Option<string>, maximum: nat)
    ensures ValidOptional(s, maximum) <==> OptionalAllowed(s, maximum)
  {
    if s.Some? {
      TextExactly(s.value, maximum);
    }
  }

  /** A delivery key is short and made of ASCII letters, digits and four marks. */
  predicate KeyAllowed(key: string) {
    0 < |key| <= 256 && forall c :: c in key ==>
      0x30 <= c as int <= 0x39 || 0x41 <= c as int <= 0x5A || 0x61 <= c as int <= 0x7A || c in "._:-"
  }

  lemma KeyExactly(key: string)
    ensures ValidKey(key) <==> KeyAllowed(key)
  {
    if ValidKey(key) {
      forall c | c in key ensures 0x30 <= c as int <= 0x39 || 0x41 <= c as int <= 0x5A || 0x61 <= c as int <= 0x7A || c in "._:-" {
        var i :| 0 <= i < |key| && key[i] == c;
        assert KeyChar(key[i]);
      }
    }
    if KeyAllowed(key) {
      forall i | 0 <= i < |key| ensures KeyChar(key[i]) {
        assert key[i] in key;
      }
    }
  }

  // ---- Appending ----

  datatype AppendError = InvalidEvent | AppendUnauthorized | IdempotencyConflict

  predicate ValidRequest(request: AppendRequest, source: string) {
    && (request.idempotencyKey.Some? ==> ValidKey(request.idempotencyKey.value))
    && ValidRequired(request.eventName, 256)
    && ValidRequired(source, 256)
    && ValidRequired(request.action, 128)
    && ValidRequired(request.actor.kind, 128)
    && ValidOptional(request.actor.id, 512)
    && ValidOptional(request.actor.display, 512)
    && ValidOptional(request.reason, 2_048)
    && (request.scope.Some? ==>
          var scope := request.scope.value;
          && ValidOptional(scope.scopeModule, 128) && ValidRequired(scope.scopeType, 128)
          && ValidRequired(scope.id, 512) && ValidOptional(scope.display, 512))
    && (request.resource.Some? ==>
          var resource := request.resource.value;
          && ValidRequired(resource.resourceType, 128) && ValidRequired(resource.id, 512)
          && ValidOptional(resource.display, 512))
    && (request.context.Some? ==>
          var context := request.context.value;
          && ValidOptional(context.correlationId, 512) && ValidOptional(context.causationId, 512)
          && ValidOptional(context.requestId, 512) && ValidOptional(context.storyId, 512))
    && WithinWireBounds(Object(request.metadata))
  }

  function MakeIntent(request: AppendRequest, source: string, id: string, occurredAt: DateTime): Intent {
    var scope, resource, context := request.scope, request.resource, request.context;
    Intent(
      id, request.eventName, source, request.action, request.outcome, request.severity,
      request.actor.kind, request.actor.id, request.actor.display,
      if scope.Some? then scope.value.scopeModule else None,
      if scope.Some? then Some(scope.value.scopeType) else None,
      if scope.Some? then Some(scope.value.id) else None,
      if scope.Some? then scope.value.display else None,
      if resource.Some? then Some(resource.value.resourceType) else None,
      if resource.Some? then Some(resource.value.id) else None,
      if resource.Some? then resource.value.display else None,
      if context.Some? then context.value.correlationId else None,
      if context.Some? then context.value.causationId else None,
      if context.Some? then context.value.requestId else None,
      if context.Some? then context.value.storyId else None,
      request.reason, RedactMembers(request.metadata), occurredAt)
  }

  function IntentFromRequest(request: AppendRequest, source: string, freshId: string, digest: Digest)
    : Result<Intent, AppendError>
  {
    if !ValidRequest(request, source) then Err(InvalidEvent)
    else match ParseTimestamp(request.occurredAt)
      case None => Err(InvalidEvent)
      case Some(occurredAt) =>
        var id := if request.idempotencyKey.Some? then StableId(digest, source, request.idempotencyKey.value) else freshId;
        Ok(MakeIntent(request, source, id, occurredAt))
  }

  /** What a request says, its key and the text of its time aside; no context is an empty one. */
  datatype Statement = Statement(
    eventName: string, action: string, outcome: Outcome, severity: Severity, actor: Actor, scope: Option<Scope>,
    resource: Option<Resource>, context: Context, reason: Option<string>, metadata: seq<Member>)

  function Requested(r: AppendRequest): Statement {
    var context := if r.context.Some? then r.context.value else Context(None, None, None, None);
    Statement(r.eventName, r.action, r.outcome, r.severity, r.actor, r.scope, r.resource, context, r.reason, r.metadata)
  }

  /** What a consumer can put together again from the flat fields of an event. */
  function Recorded(i: Intent): Statement {
    var scope :=
      if i.scopeType.Some? && i.scopeId.Some?
      then Some(Scope(i.scopeModule, i.scopeType.value, i.scopeId.value, i.scopeDisplay))
      else None;
    var resource :=
      if i.resourceType.Some? && i.resourceId.Some?
      then Some(Resource(i.resourceType.value, i.resourceId.value, i.resourceDisplay))
      else None;
    Statement(
      i.eventName, i.action, i.outcome, i.severity, Actor(i.actorKind, i.actorId, i.actorDisplay), scope, resource,
      Context(i.correlationId, i.causationId, i.requestId, i.storyId), i.reason, i.metadata)
  }

  /** Flattening loses nothing: the event records what was requested, with redacted metadata. */
  lemma RecordsTheRequest(r: AppendRequest, source: string, id: string, occurredAt: DateTime)
    ensures Recorded(MakeIntent(r, source, id, occurredAt)) == Requested(r).(metadata := RedactMembers(r.metadata))
  {
    hide RedactMembers;
  }

  predicate ScopeAllowed(s: Scope) {
    && OptionalAllowed(s.scopeModule, 128) && TextAllowed(s.scopeType, 128) && TextAllowed(s.id, 512)
    && OptionalAllowed(s.display, 512)
  }

  predicate ResourceAllowed(r: Resource) {
    TextAllowed(r.resourceType, 128) && TextAllowed(r.id, 512) && OptionalAllowed(r.display, 512)
  }

  predicate ContextAllowed(c: Context) {
    && OptionalAllowed(c.correlationId, 512) && OptionalAllowed(c.causationId, 512)
    && OptionalAllowed(c.requestId, 512) && OptionalAllowed(c.storyId, 512)
  }

  lemma PartsExactly(request: AppendRequest)
    ensures request.scope.Some? ==>
              var scope := request.scope.value;
              (ScopeAllowed(scope) <==>
                 && ValidOptional(scope.scopeModule, 128) && ValidRequired(scope.scopeType, 128)
                 && ValidRequired(scope.id, 512) && ValidOptional(scope.display, 512))
    ensures request.resource.Some? ==>
              var resource := request.resource.value;
              (ResourceAllowed(resource) <==>
                 && ValidRequired(resource.resourceType, 128) && ValidRequired(resource.id, 512)
                 && ValidOptional(resource.display, 512))
    ensures request.context.Some? ==>
              var context := request.context.value;
              (ContextAllowed(context) <==>
                 && ValidOptional(context.correlationId, 512) && ValidOptional(context.causationId, 512)
                 && ValidOptional(context.requestId, 512) && ValidOptional(context.storyId, 512))
  {
    hide ValidRequired, ValidOptional, TextAllowed, OptionalAllowed;
    if request.scope.Some? {
      var scope := request.scope.value;
      OptionalExactly(scope.scopeModule, 128);
      TextExactly(scope.scopeType, 128);
      TextExactly(scope.id, 512);
      OptionalExactly(scope.display, 512);
    }
    if request.resource.Some? {
      var resource := request.resource.value;
      TextExactly(resource.resourceType, 128);
      TextExactly(resource.id, 512);
      OptionalExactly(resource.display, 512);
    }
    if request.context.Some? {
      var context := request.context.value;
      OptionalExactly(context.correlationId, 512);
      OptionalExactly(context.causationId, 512);
      OptionalExactly(context.requestId, 512);
      OptionalExactly(context.storyId, 512);
    }
  }

  /** What a request must be for its event to be accepted; anything else is an invalid event. */
  lemma AcceptedExactly(request: AppendRequest, source: string, freshId: string, digest: Digest)
    ensures IntentFromRequest(request, source, freshId, digest).Ok? <==>
            && (request.idempotencyKey.Some? ==> KeyAllowed(request.idempotencyKey.value))
            && TextAllowed(request.eventName, 256)
            && TextAllowed(source, 256)
            && TextAllowed(request.action, 128)
            && TextAllowed(request.actor.kind, 128)
            && OptionalAllowed(request.actor.id, 512)
            && OptionalAllowed(request.actor.display, 512)
            && OptionalAllowed(request.reason, 2_048)
            && (request.scope.Some? ==> ScopeAllowed(request.scope.value))
            && (request.resource.Some? ==> ResourceAllowed(request.resource.value))
            && (request.context.Some? ==> ContextAllowed(request.context.value))
            && WithinWireBounds(Object(request.metadata))
            && ParseTimestamp(request.occurredAt).Some?
    ensures var result := IntentFromRequest(request, source, freshId, digest);
            result.Err? ==> result.error == InvalidEvent
  {
    hide ValidRequired, ValidOptional, ValidKey, TextAllowed, OptionalAllowed, KeyAllowed, ScopeAllowed, ResourceAllowed;
    hide ContextAllowed, WithinWireBounds, ParseTimestamp, MakeIntent, StableId;
    if request.idempotencyKey.Some? {
      KeyExactly(request.idempotencyKey.value);
    }
    TextExactly(request.eventName, 256);
    TextExactly(source, 256);
    TextExactly(request.action, 128);
    TextExactly(request.actor.kind, 128);
    OptionalExactly(request.actor.id, 512);
    OptionalExactly(request.actor.display, 512);
    OptionalExactly(request.reason, 2_048);
    PartsExactly(request);
  }

  /** The event of an accepted request, in the terms of the request. */
  lemma IntentExactly(request: AppendRequest, source: string, freshId: string, digest: Digest)
    ensures var result := IntentFromRequest(request, source, freshId, digest);
            result.Ok? ==>
              var intent := result.value;
              && Some(intent.occurredAt) == ParseTimestamp(request.occurredAt)
              && intent.sourceInstance == source
              && intent.id == (if request.idempotencyKey.None? then freshId else StableId(digest, source, request.idempotencyKey.value))
              && Recorded(intent) == Requested(request).(metadata := RedactMembers(request.metadata))
  {
    hide ValidRequest, ParseTimestamp, RedactMembers, StableId, Recorded, Requested;
    if IntentFromRequest(request, source, freshId, digest).Ok? {
      var intent := IntentFromRequest(request, source, freshId, digest).value;
      RecordsTheRequest(request, source, intent.id, intent.occurredAt);
    }
  }

  // ---- Projecting ----

  predicate WireTimestamp(t: DateTime) {
    WireYear(t) && |Print(t)| <= 64
  }

  /** The text fields a projection checks, in order, with their limits. */
  function TextFields(i: Intent): seq<(Option<string>, nat)> {
    [(i.actorId, 512), (i.actorDisplay, 512), (i.scopeModule, 128), (i.scopeType, 128), (i.scopeId, 512),
     (i.scopeDisplay, 512), (i.resourceType, 128), (i.resourceId, 512), (i.resourceDisplay, 512),
     (i.correlationId, 512), (i.causationId, 512), (i.requestId, 512), (i.storyId, 512), (i.reason, 2_048)]
  }

  predicate AllValid(fields: seq<(Option<string>, nat)>) {
    fields == [] || (ValidOptional(fields[0].0, fields[0].1) && AllValid(fields[1..]))
  }

  predicate ProjectableText(i: Intent) {
    && ValidRequired(i.id, 512)
    && ValidRequired(i.eventName, 256)
    && ValidRequired(i.sourceInstance, 256)
    && ValidRequired(i.action, 128)
    && ValidRequired(i.actorKind, 128)
    && AllValid(TextFields(i))
  }

  /** `validate_wire_projection`: a stored event leaves only if it is inside the wire boundary. */
  predicate Projectable(e: StoredEvent) {
    && ProjectableText(e.intent)
    && WireTimestamp(e.intent.occurredAt)
    && WireTimestamp(e.createdAt)
    && WithinWireBounds(Object(e.intent.metadata))
  }

  lemma WireTimestampIsWireYear(t: DateTime)
    ensures WireTimestamp(t) <==> WireYear(t)
  {
    if WireYear(t) {
      PrintedLength(t);
    }
  }

  lemma {:induction false} NoControlFrom(s: string)
    requires forall i :: 0 <= i < |s| ==> !IsControl(s[i])
    ensures NoControl(s)
  {
    if s != [] {
      NoControlFrom(s[1..]);
    }
  }

  lemma StableIdIsValid(digest: Digest, source: string, key: string)
    requires Digest256(digest)
    ensures ValidRequired(StableId(digest, source, key), 512)
  {
    var h := Hex(digest(Frame(source, key)));
    var id := ID_PREFIX + h;
    assert forall c :: c in HEX ==> !IsControl(c);
    forall i | 0 <= i < |id| ensures !IsControl(id[i]) {
      if i < |ID_PREFIX| {
        assert id[i] == ID_PREFIX[i];
        assert !IsControl(ID_PREFIX[i]);
      } else {
        assert id[i] == h[i - |ID_PREFIX|];
      }
    }
    NoControlFrom(id);
  }

  lemma AllValidFields(fields: seq<(Option<string>, nat)>)
    requires forall k :: 0 <= k < |fields| ==> ValidOptional(fields[k].0, fields[k].1)
    ensures AllValid(fields)
  {
    if fields != [] {
      AllValidFields(fields[1..]);
    }
  }

  /** Every text field of an accepted event passes the projection's limits. */
  lemma AcceptedText(request: AppendRequest, source: string, id: string, occurredAt: DateTime)
    requires ValidRequest(request, source) && ValidRequired(id, 512)
    ensures ProjectableText(MakeIntent(request, source, id, occurredAt))
  {
    AllValidFields(TextFields(MakeIntent(request, source, id, occurredAt)));
  }

  /** An accepted event can be projected exactly when its UTC year and the store's clock are in the
    wire range and its own metadata leaves room for the growth by redaction. */
  lemma AcceptedIsProjectable(request: AppendRequest, source: string, freshId: string, digest: Digest, createdAt: DateTime)
    requires Digest256(digest) && ValidRequired(freshId, 512)
    requires IntentFromRequest(request, source, freshId, digest).Ok?
    ensures var intent := IntentFromRequest(request, source, freshId, digest).value;
            var metadata := Object(request.metadata);
            Projectable(StoredEvent(intent, createdAt)) <==>
            && WireYear(intent.occurredAt) && WireYear(createdAt)
            && EncodedBytes(metadata) + Growth(metadata) <= MAX_METADATA_BYTES
  {
    var intent := IntentFromRequest(request, source, freshId, digest).value;
    if request.idempotencyKey.Some? {
      StableIdIsValid(digest, source, request.idempotencyKey.value);
    }
    AcceptedText(request, source, intent.id, intent.occurredAt);
    WireTimestampIsWireYear(intent.occurredAt);
    WireTimestampIsWireYear(createdAt);
    RedactedWithinBounds(Object(request.metadata));
    assert Redact(Object(request.metadata)) == Object(intent.metadata);
  }

  // ---- What may leave, field by field ----

  predicate OptionalFieldsAllowed(i: Intent) {
    && OptionalAllowed(i.actorId, 512) && OptionalAllowed(i.actorDisplay, 512)
    && OptionalAllowed(i.scopeModule, 128) && OptionalAllowed(i.scopeType, 128) && OptionalAllowed(i.scopeId, 512)
    && OptionalAllowed(i.scopeDisplay, 512)
    && OptionalAllowed(i.resourceType, 128) && OptionalAllowed(i.resourceId, 512) && OptionalAllowed(i.resourceDisplay, 512)
    && OptionalAllowed(i.correlationId, 512) && OptionalAllowed(i.causationId, 512)
    && OptionalAllowed(i.requestId, 512) && OptionalAllowed(i.storyId, 512)
    && OptionalAllowed(i.reason, 2_048)
  }

  lemma {:induction false} AllValidExactly(fields: seq<(Option<string>, nat)>)
    ensures AllValid(fields) <==> forall k :: 0 <= k < |fields| ==> OptionalAllowed(fields[k].0, fields[k].1)
  {
    hide ValidOptional, OptionalAllowed;
    if fields != [] {
      OptionalExactly(fields[0].0, fields[0].1);
      AllValidExactly(fields[1..]);
      assert forall k :: 1 <= k < |fields| ==> fields[k] == fields[1..][k - 1];
    }
  }

  lemma OptionalFieldsExactly(i: Intent)
    ensures AllValid(TextFields(i)) <==> OptionalFieldsAllowed(i)
  {
    hide ValidOptional, OptionalAllowed, AllValid;
    var fields := TextFields(i);
    AllValidExactly(fields);
    assert |fields| == 14;
    if forall k :: 0 <= k < |fields| ==> OptionalAllowed(fields[k].0, fields[k].1) {
      assert OptionalAllowed(fields[0].0, fields[0].1) && OptionalAllowed(fields[1].0, fields[1].1);
      assert OptionalAllowed(fields[2].0, fields[2].1) && OptionalAllowed(fields[3].0, fields[3].1);
      assert OptionalAllowed(fields[4].0, fields[4].1) && OptionalAllowed(fields[5].0, fields[5].1);
      assert OptionalAllowed(fields[6].0, fields[6].1) && OptionalAllowed(fields[7].0, fields[7].1);
      assert OptionalAllowed(fields[8].0, fields[8].1) && OptionalAllowed(fields[9].0, fields[9].1);
      assert OptionalAllowed(fields[10].0, fields[10].1) && OptionalAllowed(fields[11].0, fields[11].1);
      assert OptionalAllowed(fields[12].0, fields[12].1) && OptionalAllowed(fields[13].0, fields[13].1);
    }
  }

  /** An event passes projection exactly when all its texts, times and metadata are those of the wire. */
  lemma ProjectableExactly(e: StoredEvent)
    ensures Projectable(e) <==>
            && TextAllowed(e.intent.id, 512) && TextAllowed(e.intent.eventName, 256)
            && TextAllowed(e.intent.sourceInstance, 256) && TextAllowed(e.intent.action, 128)
            && TextAllowed(e.intent.actorKind, 128)
            && OptionalFieldsAllowed(e.intent)
            && 0 <= e.intent.occurredAt.date.year <= 9_999 && 0 <= e.createdAt.date.year <= 9_999
            && WithinWireBounds(Object(e.intent.metadata))
  {
    WireTimestampIsWireYear(e.intent.occurredAt);
    WireTimestampIsWireYear(e.createdAt);
    hide WithinWireBounds, WireTimestamp, ValidRequired, TextAllowed, AllValid, OptionalFieldsAllowed, TextFields;
    TextExactly(e.intent.id, 512);
    TextExactly(e.intent.eventName, 256);
    TextExactly(e.intent.sourceInstance, 256);
    TextExactly(e.intent.action, 128);
    TextExactly(e.intent.actorKind, 128);
    OptionalFieldsExactly(e.intent);
  }

  // ---- Filtering ----

  datatype Position = Position(occurredAt: DateTime, id: string)

  function PositionOf(e: StoredEvent): Position { Position(e.intent.occurredAt, e.intent.id) }

  /** Older, or as old with a smaller id. */
  predicate Below(less: IdOrder, a: Position, b: Position) {
    Before(a.occurredAt, b.occurredAt) || (a.occurredAt == b.occurredAt && less(a.id, b.id))
  }

  lemma BelowIsStrictTotal(less: IdOrder)
    requires StrictTotal(less)
    ensures forall a :: !Below(less, a, a)
    ensures forall a, b, c :: Below(less, a, b) && Below(less, b, c) ==> Below(less, a, c)
    ensures forall a, b :: Below(less, a, b) || a == b || Below(less, b, a)
  {}

  /** The fields a reader may ask to equal a given value. */
  datatype FieldFilter = FieldFilter(
    eventName: Option<string>, sourceInstance: Option<string>, outcome: Option<Outcome>, severity: Option<Severity>,
    actorKind: Option<string>, actorId: Option<string>,
    scopeModule: Option<string>, scopeType: Option<string>, scopeId: Option<string>,
    resourceType: Option<string>, resourceId: Option<string>, correlationId: Option<string>)

  datatype Filter = Filter(
    fields: FieldFilter, occurredAfter: Option<DateTime>, occurredBefore: Option<DateTime>,
    cursor: Option<Position>, limit: int)

  predicate MatchesValue<T(==)>(filter: Option<T>, value: T) { filter.Some? ==> filter.value == value }

  predicate MatchesOptional(filter: Option<string>, value: Option<string>) { filter.Some? ==> value == filter }

  predicate MatchesFields(f: FieldFilter, i: Intent) {
    && MatchesValue(f.eventName, i.eventName)
    && MatchesValue(f.sourceInstance, i.sourceInstance)
    && MatchesValue(f.outcome, i.outcome)
    && MatchesValue(f.severity, i.severity)
    && MatchesValue(f.actorKind, i.actorKind)
    && MatchesOptional(f.actorId, i.actorId)
    && MatchesOptional(f.scopeModule, i.scopeModule)
    && MatchesOptional(f.scopeType, i.scopeType)
    && MatchesOptional(f.scopeId, i.scopeId)
    && MatchesOptional(f.resourceType, i.resourceType)
    && MatchesOptional(f.resourceId, i.resourceId)
    && MatchesOptional(f.correlationId, i.correlationId)
  }

  predicate InRange(f: Filter, t: DateTime) {
    && (f.occurredAfter.Some? ==> !Before(t, f.occurredAfter.value))
    && (f.occurredBefore.Some? ==> !Before(f.occurredBefore.value, t))
  }

  predicate BelowCursor(less: IdOrder, cursor: Option<Position>, e: StoredEvent) {
    cursor.Some? ==> Below(less, PositionOf(e), cursor.value)
  }

  predicate Matches(less: IdOrder, f: Filter, e: StoredEvent) {
    MatchesFields(f.fields, e.intent) && InRange(f, e.intent.occurredAt) && BelowCursor(less, f.cursor, e)
  }

  // ---- List requests ----

  datatype WireCursor = WireCursor(occurredAt: string, id: string)

  datatype ListRequest = ListRequest(
    fields: FieldFilter, occurredAfter: Option<string>, occurredBefore: Option<string>,
    cursor: Option<WireCursor>, limit: int)

  datatype ListError = InvalidQuery | ListUnauthorized

  predicate ValidFilters(r: FieldFilter) {
    && ValidOptional(r.eventName, 256) && ValidOptional(r.sourceInstance, 256)
    && ValidOptional(r.actorKind, 128) && ValidOptional(r.actorId, 512)
    && ValidOptional(r.scopeModule, 128) && ValidOptional(r.scopeType, 128) && ValidOptional(r.scopeId, 512)
    && ValidOptional(r.resourceType, 128) && ValidOptional(r.resourceId, 512) && ValidOptional(r.correlationId, 512)
  }

  function ParseOptional(text: Option<string>): Result<Option<DateTime>, ListError> {
    if text.None? then Ok(None)
    else match ParseTimestamp(text.value)
      case Some(t) => Ok(Some(t))
      case None => Err(InvalidQuery)
  }

  function ParseCursor(cursor: Option<WireCursor>): Result<Option<Position>, ListError> {
    if cursor.None? then Ok(None)
    else if !ValidRequired(cursor.value.id, 512) then Err(InvalidQuery)
    else match ParseTimestamp(cursor.value.occurredAt)
      case Some(t) => Ok(Some(Position(t, cursor.value.id)))
      case None => Err(InvalidQuery)
  }

  /** The two ends of the time range, in order. */
  function ParseRange(r: ListRequest): Result<(Option<DateTime>, Option<DateTime>), ListError> {
    var occurredAfter :- ParseOptional(r.occurredAfter);
    var occurredBefore :- ParseOptional(r.occurredBefore);
    if occurredAfter.Some? && occurredBefore.Some? && Before(occurredBefore.value, occurredAfter.value)
    then Err(InvalidQuery)
    else Ok((occurredAfter, occurredBefore))
  }

  function FilterFromRequest(r: ListRequest): Result<Filter, ListError> {
    if !ValidFilters(r.fields) || !(1 <= r.limit <= 200) then Err(InvalidQuery)
    else
      var range :- ParseRange(r);
      var cursor :- ParseCursor(r.cursor);
      Ok(Filter(r.fields, range.0, range.1, cursor, r.limit))
  }

  // ---- What a request asks for, without going through the filter ----

  predicate FieldsAllowed(f: FieldFilter) {
    && OptionalAllowed(f.eventName, 256) && OptionalAllowed(f.sourceInstance, 256)
    && OptionalAllowed(f.actorKind, 128) && OptionalAllowed(f.actorId, 512)
    && OptionalAllowed(f.scopeModule, 128) && OptionalAllowed(f.scopeType, 128) && OptionalAllowed(f.scopeId, 512)
    && OptionalAllowed(f.resourceType, 128) && OptionalAllowed(f.resourceId, 512)
    && OptionalAllowed(f.correlationId, 512)
  }

  lemma FieldsExactly(f: FieldFilter)
    ensures ValidFilters(f) <==> FieldsAllowed(f)
  {
    hide ValidOptional, OptionalAllowed;
    OptionalExactly(f.eventName, 256);
    OptionalExactly(f.sourceInstance, 256);
    OptionalExactly(f.actorKind, 128);
    OptionalExactly(f.actorId, 512);
    OptionalExactly(f.scopeModule, 128);
    OptionalExactly(f.scopeType, 128);
    OptionalExactly(f.scopeId, 512);
    OptionalExactly(f.resourceType, 128);
    OptionalExactly(f.resourceId, 512);
    OptionalExactly(f.correlationId, 512);
  }

  /** The instant a text names, if there is a text and it names one. */
  function Named(text: Option<string>): Option<DateTime> {
    if text.Some? then ParseTimestamp(text.value) else None
  }

  /** A limit out of range, a field or cursor id that is no text of the wire, a text that names no
    instant, or an end of the time range before its beginning. */
  predicate Refusable(r: ListRequest) {
    || r.limit < 1 || r.limit > 200
    || !FieldsAllowed(r.fields)
    || (r.occurredAfter.Some? && Named(r.occurredAfter).None?)
    || (r.occurredBefore.Some? && Named(r.occurredBefore).None?)
    || (r.occurredAfter.Some? && r.occurredBefore.Some?
        && Named(r.occurredAfter).Some? && Named(r.occurredBefore).Some?
        && Before(Named(r.occurredBefore).value, Named(r.occurredAfter).value))
    || (r.cursor.Some? && (!TextAllowed(r.cursor.value.id, 512) || ParseTimestamp(r.cursor.value.occurredAt).None?))
  }

  /** A request is refused exactly for these reasons, and otherwise read as it is written. */
  lemma RequestExactly(r: ListRequest)
    ensures FilterFromRequest(r) == Err(InvalidQuery) <==> Refusable(r)
    ensures var result := FilterFromRequest(r);
            result.Ok? <==> !Refusable(r)
    ensures var result := FilterFromRequest(r);
            result.Ok? ==>
              && result.value.fields == r.fields && result.value.limit == r.limit
              && result.value.occurredAfter == Named(r.occurredAfter)
              && result.value.occurredBefore == Named(r.occurredBefore)
              && (r.cursor.None? ==> result.value.cursor == None)
              && (r.cursor.Some? ==>
                    && ParseTimestamp(r.cursor.value.occurredAt).Some?
                    && result.value.cursor
                       == Some(Position(ParseTimestamp(r.cursor.value.occurredAt).value, r.cursor.value.id)))
  {
    hide ValidFilters, FieldsAllowed, ParseTimestamp, ValidRequired, TextAllowed, Before;
    FieldsExactly(r.fields);
    if r.cursor.Some? {
      TextExactly(r.cursor.value.id, 512);
    }
  }

  // ---- Cursors across the wire ----

  function WireCursorOf(e: StoredEvent): WireCursor
    requires PrintableYear(e.intent.occurredAt)
  {
    WireCursor(Print(e.intent.occurredAt), e.intent.id)
  }

  lemma RangeIgnoresCursor(r: ListRequest, cursor: Option<WireCursor>)
    ensures ParseRange(r.(cursor := cursor)) == ParseRange(r)
  {
    hide ParseTimestamp;
  }

  /** The cursor made from an event that passed projection is accepted and names that event's exact
    position; nothing else in the request changes. */
  lemma CursorRoundTrip(r: ListRequest, e: StoredEvent)
    ensures Projectable(e) && FilterFromRequest(r).Ok? ==>
              FilterFromRequest(r.(cursor := Some(WireCursorOf(e))))
              == Ok(FilterFromRequest(r).value.(cursor := Some(PositionOf(e))))
  {
    if !Projectable(e) {
      return;
    }
    PrintParse(e.intent.occurredAt);
    hide ParseTimestamp, Print, ParseRange, ValidFilters, WithinWireBounds, AllValid;
    var cursor := Some(WireCursorOf(e));
    assert ParseCursor(cursor) == Ok(Some(PositionOf(e)));
    RangeIgnoresCursor(r, cursor);
  }
}
