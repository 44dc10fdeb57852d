/** The audit service: caller policy, scope ceilings, and the three operations over a store. */
module Service {
  import opened Wrappers
  import opened Order
  import opened Time
  import opened Rfc3339
  import opened Redaction
  import opened Identity
  import opened Events
  import opened ReferenceStore
  import opened Paging

  // ---- Policy ----

  datatype ReadScope = ReadScope(kind: string, id: string)

  datatype Policy = Policy(writers: seq<string>, readers: seq<string>, readerScopes: map<string, seq<ReadScope>>)

  predicate NameChar(c: char) { KeyChar(c) || c == '/' }

  predicate ValidName(value: string, maximum: nat) {
    0 < |value| <= maximum && forall i :: 0 <= i < |value| ==> NameChar(value[i])
  }

  predicate ValidCallers(callers: seq<string>) {
    && 0 < |callers| <= 1_024
    && (forall i :: 0 <= i < |callers| ==> ValidName(callers[i], 256))
    && (forall i, j :: 0 <= i < j < |callers| ==> callers[i] != callers[j])
  }

  predicate ValidPolicy(p: Policy) {
    && ValidCallers(p.writers)
    && ValidCallers(p.readers)
    && forall reader :: reader in p.readerScopes ==>
         && reader in p.readers
         && 0 < |p.readerScopes[reader]| <= 64
         && forall i :: 0 <= i < |p.readerScopes[reader]| ==>
              ValidName(p.readerScopes[reader][i].kind, 128) && ValidName(p.readerScopes[reader][i].id, 512)
  }

  /** A reader without a ceiling sees every scope; one with a ceiling sees the exact scopes in it. */
  predicate Admits(p: Policy, reader: string, kind: Option<string>, id: Option<string>) {
    reader in p.readerScopes ==>
      exists i :: 0 <= i < |p.readerScopes[reader]|
                  && kind == Some(p.readerScopes[reader][i].kind) && id == Some(p.readerScopes[reader][i].id)
  }

  predicate AdmitsEvent(p: Policy, reader: string, e: StoredEvent) {
    Admits(p, reader, e.intent.scopeType, e.intent.scopeId)
  }

  /** The pairs of scope type and id that are listed for a reader. */
  function ListedPairs(p: Policy, reader: string): set<(string, string)>
    requires reader in p.readerScopes
  {
    set s | s in p.readerScopes[reader] :: (s.kind, s.id)
  }

  /** A reader with an entry sees what carries one of its pairs; a reader without one sees everything. */
  predicate InCeiling(p: Policy, reader: string, kind: Option<string>, id: Option<string>) {
    reader in p.readerScopes ==> kind.Some? && id.Some? && (kind.value, id.value) in ListedPairs(p, reader)
  }

  predicate EventInCeiling(p: Policy, reader: string, e: StoredEvent) {
    InCeiling(p, reader, e.intent.scopeType, e.intent.scopeId)
  }

  lemma AdmitsExactly(p: Policy, reader: string, kind: Option<string>, id: Option<string>)
    ensures Admits(p, reader, kind, id) <==> InCeiling(p, reader, kind, id)
  {
    if reader in p.readerScopes {
      var scopes := p.readerScopes[reader];
      if Admits(p, reader, kind, id) {
        var i :| 0 <= i < |scopes| && kind == Some(scopes[i].kind) && id == Some(scopes[i].id);
        assert scopes[i] in scopes;
      }
      if InCeiling(p, reader, kind, id) {
        var s :| s in scopes && (s.kind, s.id) == (kind.value, id.value);
        var i :| 0 <= i < |scopes| && scopes[i] == s;
      }
    }
  }

  function AuthorizedCaller(caller: Option<string>, allowed: seq<string>): Option<string> {
    if caller.Some? && caller.value in allowed then caller else None
  }

  // ---- Answers ----

  datatype RuntimeFailure = StorageUnavailable | ProjectionFailed

  datatype ServiceError<+E> = Domain(error: E) | Runtime(failure: RuntimeFailure)

  datatype GetError = InvalidId | NotFound | GetUnauthorized

  datatype ListResponse = ListResponse(events: Log, nextCursor: Option<WireCursor>)

  type GetAnswer = Result<StoredEvent, ServiceError<GetError>>
  type ListAnswer = Result<ListResponse, ServiceError<ListError>>
  type AppendAnswer = Result<StoredEvent, ServiceError<AppendError>>

  predicate AllProjectable(events: Log) {
    forall i :: 0 <= i < |events| ==> Projectable(events[i])
  }

  lemma ProjectableSlice(events: Log, low: nat, high: nat)
    requires low <= high <= |events| && AllProjectable(events)
    ensures AllProjectable(events[low..high])
  {
    forall i | 0 <= i < high - low ensures Projectable(events[low..high][i]) {
      assert events[low..high][i] == events[low + i];
    }
  }

  function AnswerGet(p: Policy, caller: Option<string>, log: Log, id: string): GetAnswer {
    match AuthorizedCaller(caller, p.readers)
    case None => Err(Domain(GetUnauthorized))
    case Some(reader) =>
      if !ValidRequired(id, 512) then Err(Domain(InvalidId))
      else match Find(log, id)
        case None => Err(Domain(NotFound))
        case Some(stored) =>
          if !AdmitsEvent(p, reader, stored) then Err(Domain(NotFound))
          else if !Projectable(stored) then Err(Runtime(ProjectionFailed))
          else Ok(stored)
  }

  /** The response made from the rows a store fetched. */
  function Respond(fetched: Log, limit: int): (r: ListAnswer)
    requires 1 <= limit
  {
    var page := PageOf(fetched, limit);
    if !AllProjectable(page.events) then Err(Runtime(ProjectionFailed))
    else Ok(ListResponse(page.events, if page.next.None? then None else Some(WireCursorOf(page.events[limit - 1]))))
  }

  function AnswerList(p: Policy, caller: Option<string>, less: IdOrder, log: Log, request: ListRequest): ListAnswer {
    match AuthorizedCaller(caller, p.readers)
    case None => Err(Domain(ListUnauthorized))
    case Some(reader) =>
      if !Admits(p, reader, request.fields.scopeType, request.fields.scopeId) then Err(Domain(ListUnauthorized))
      else match FilterFromRequest(request)
        case Err(e) => Err(Domain(e))
        case Ok(f) => Respond(List(less, log, f), f.limit)
  }

  /** The log and the answer after an append. A request without a key takes the fresh id. */
  function AnswerAppend(
    p: Policy, caller: Option<string>, log: Log, request: AppendRequest, digest: Digest, freshId: string, now: DateTime
  ): (Log, AppendAnswer) {
    match AuthorizedCaller(caller, p.writers)
    case None => (log, Err(Domain(AppendUnauthorized)))
    case Some(source) =>
      match IntentFromRequest(request, source, freshId, digest)
      case Err(e) => (log, Err(Domain(e)))
      case Ok(intent) =>
        match Append(log, intent, now)
        case (grown, Err(_)) => (grown, Err(Domain(IdempotencyConflict)))
        case (grown, Ok(stored)) =>
          (grown, if Projectable(stored) then Ok(stored) else Err(Runtime(ProjectionFailed)))
  }

  // ---- The service object ----

  class AuditService {
    const policy: Policy
    const digest: Digest
    const store: FixtureStore

    constructor (policy: Policy, digest: Digest, store: FixtureStore)
      ensures this.policy == policy && this.digest == digest && this.store == store
    {
      this.policy := policy;
      this.digest := digest;
      this.store := store;
    }

    method AppendEvent(caller: Option<string>, request: AppendRequest, freshId: string, now: DateTime)
      returns (answer: AppendAnswer)
      requires store.Valid()
      modifies store
      ensures store.Valid()
      ensures !store.fail ==>
              (store.events, answer) == AnswerAppend(policy, caller, old(store.events), request, digest, freshId, now)
      ensures store.fail ==> store.events == old(store.events)
      ensures store.fail ==>
                answer == Err(if AuthorizedCaller(caller, policy.writers).None? then Domain(AppendUnauthorized)
                              else if IntentFromRequest(request, caller.value, freshId, digest).Err? then Domain(InvalidEvent)
                              else Runtime(StorageUnavailable))
    {
      var source := AuthorizedCaller(caller, policy.writers);
      if source.None? {
        return Err(Domain(AppendUnauthorized));
      }
      var needsId := request.idempotencyKey.None?;
      var checked := IntentFromRequest(request, source.value, "audit_evt_pending", digest);
      if checked.Err? {
        return Err(Domain(checked.error));
      }
      var intent := checked.value;
      if needsId {
        intent := intent.(id := freshId);
      }
      var result := store.AppendEvent(intent, now);
      if result.Err? {
        return if result.error == Conflict then Err(Domain(IdempotencyConflict)) else Err(Runtime(StorageUnavailable));
      }
      answer := if Projectable(result.value) then Ok(result.value) else Err(Runtime(ProjectionFailed));
    }

    method GetEvent(caller: Option<string>, id: string) returns (answer: GetAnswer)
      ensures !store.fail ==> answer == AnswerGet(policy, caller, store.events, id)
      ensures store.fail ==>
                answer == Err(if AuthorizedCaller(caller, policy.readers).None? then Domain(GetUnauthorized)
                              else if !TextAllowed(id, 512) then Domain(InvalidId)
                              else Runtime(StorageUnavailable))
    {
      var reader := AuthorizedCaller(caller, policy.readers);
      if reader.None? {
        return Err(Domain(GetUnauthorized));
      }
      TextExactly(id, 512);
      if !ValidRequired(id, 512) {
        return Err(Domain(InvalidId));
      }
      var result := store.GetEvent(id);
      if result.Err? {
        return Err(Runtime(StorageUnavailable));
      }
      if result.value.None? || !AdmitsEvent(policy, reader.value, result.value.value) {
        return Err(Domain(NotFound));
      }
      var stored := result.value.value;
      answer := if Projectable(stored) then Ok(stored) else Err(Runtime(ProjectionFailed));
    }

    method ListEvents(caller: Option<string>, request: ListRequest) returns (answer: ListAnswer)
      ensures !store.fail ==> answer == AnswerList(policy, caller, Less, store.events, request)
      ensures store.fail ==>
                answer == Err(if AuthorizedCaller(caller, policy.readers).None? then Domain(ListUnauthorized)
                              else if !InCeiling(policy, caller.value, request.fields.scopeType, request.fields.scopeId)
                              then Domain(ListUnauthorized)
                              else if Refusable(request) then Domain(InvalidQuery)
                              else Runtime(StorageUnavailable))
    {
      RequestExactly(request);
      if caller.Some? {
        AdmitsExactly(policy, caller.value, request.fields.scopeType, request.fields.scopeId);
      }
      hide Refusable, InCeiling, Admits, FilterFromRequest;
      var reader := AuthorizedCaller(caller, policy.readers);
      if reader.None? {
        return Err(Domain(ListUnauthorized));
      }
      if !Admits(policy, reader.value, request.fields.scopeType, request.fields.scopeId) {
        return Err(Domain(ListUnauthorized));
      }
      var filter := FilterFromRequest(request);
      if filter.Err? {
        return Err(Domain(filter.error));
      }
      var result := store.ListEvents(filter.value);
      if result.Err? {
        return Err(Runtime(StorageUnavailable));
      }
      answer := ProjectPage(result.value, filter.value.limit);
    }

    method MayAllLeave(stored: Log) returns (ok: bool)
      ensures ok <==> AllProjectable(stored)
    {
      hide Projectable;
      var i := 0;
      while i < |stored|
        invariant i <= |stored|
        invariant forall j :: 0 <= j < i ==> Projectable(stored[j])
      {
        if !Projectable(stored[i]) {
          return false;
        }
        i := i + 1;
      }
      ok := true;
    }

    /** Truncates what was fetched to the page and lets it out only if every event may leave. */
    method ProjectPage(fetched: Log, limit: int) returns (answer: ListAnswer)
      requires 1 <= limit
      ensures answer == Respond(fetched, limit)
    {
      var stored := fetched;
      var hasNextPage := |stored| > limit;
      if hasNextPage {
        stored := stored[..limit];
      }
      assert stored == PageOf(fetched, limit).events;
      var ok := MayAllLeave(stored);
      if !ok {
        return Err(Runtime(ProjectionFailed));
      }
      var nextCursor := None;
      if hasNextPage {
        nextCursor := Some(WireCursorOf(stored[limit - 1]));
      }
      answer := Ok(ListResponse(stored, nextCursor));
    }
  }

  // ---- Paging across the wire ----

  /** What a reader collects who sends each cursor back, one snapshot of the log for each request. */
  function ReadWire(p: Policy, caller: Option<string>, less: IdOrder, logs: seq<Log>, request: ListRequest)
    : Result<(Log, bool), ServiceError<ListError>>
    decreases |logs|
  {
    if logs == [] then Ok(([], false))
    else
      var response :- AnswerList(p, caller, less, logs[0], request);
      if response.nextCursor.None? then Ok((response.events, true))
      else
        var (rest, done) :- ReadWire(p, caller, less, logs[1..], request.(cursor := response.nextCursor));
        Ok((response.events + rest, done))
  }

  /** What a successful list answer is made of. */
  lemma AnsweredPage(p: Policy, caller: Option<string>, less: IdOrder, log: Log, request: ListRequest)
    ensures AnswerList(p, caller, less, log, request).Ok? ==>
              FilterFromRequest(request).Ok? && 1 <= FilterFromRequest(request).value.limit <= 200
    ensures AnswerList(p, caller, less, log, request).Ok? ==>
              var f, response := FilterFromRequest(request).value, AnswerList(p, caller, less, log, request).value;
              var page := ListPage(less, log, f);
              && response.events == page.events && AllProjectable(page.events)
              && (page.next.None? <==> response.nextCursor.None?)
              && (page.next.Some? ==>
                    && |page.events| == f.limit
                    && page.next == Some(PositionOf(page.events[f.limit - 1]))
                    && response.nextCursor == Some(WireCursorOf(page.events[f.limit - 1])))
  {}

  /** A cursor that leaves the service is accepted by the next request and stands for the exact
    position of the last event of its page. */
  lemma CursorIsAccepted(p: Policy, caller: Option<string>, less: IdOrder, log: Log, request: ListRequest)
    ensures var answer := AnswerList(p, caller, less, log, request);
            answer.Ok? && answer.value.nextCursor.Some? ==>
              var events := answer.value.events;
              var next := request.(cursor := answer.value.nextCursor);
              && events != []
              && FilterFromRequest(request).Ok?
              && FilterFromRequest(next) == Ok(At(FilterFromRequest(request).value, PositionOf(events[|events| - 1])))
  {
    hide AnswerList, FilterFromRequest, ListPage, Projectable, WireCursorOf;
    AnsweredPage(p, caller, less, log, request);
    var answer := AnswerList(p, caller, less, log, request);
    if answer.Ok? && answer.value.nextCursor.Some? {
      CursorRoundTrip(request, answer.value.events[|answer.value.events| - 1]);
    }
  }

  /** Timestamps printed and parsed on the way change nothing: pages read over the wire are the
    pages read by position. */
  lemma {:induction false} WireIsPositional(
    p: Policy, caller: Option<string>, less: IdOrder, logs: seq<Log>, request: ListRequest)
    requires logs != []
    ensures ReadWire(p, caller, less, logs, request).Ok? ==>
              && FilterFromRequest(request).Ok? && 1 <= FilterFromRequest(request).value.limit <= 200
              && ReadPages(less, logs, FilterFromRequest(request).value) == ReadWire(p, caller, less, logs, request).value
    decreases |logs|
  {
    hide AnswerList, FilterFromRequest, ListPage, AllProjectable, WireCursorOf, PositionOf;
    AnsweredPage(p, caller, less, logs[0], request);
    CursorIsAccepted(p, caller, less, logs[0], request);
    var answer := AnswerList(p, caller, less, logs[0], request);
    if answer.Ok? && answer.value.nextCursor.Some? && logs[1..] != [] {
      WireIsPositional(p, caller, less, logs[1..], request.(cursor := answer.value.nextCursor));
    }
  }

  /** Over any growth of the log between the requests: no event twice, none that does not match, and
    at the end every matching event that was there at the first request. */
  lemma WirePaging(p: Policy, caller: Option<string>, less: IdOrder, logs: seq<Log>, request: ListRequest)
    requires StrictTotal(less) && Growing(logs) && logs != []
    ensures ReadWire(p, caller, less, logs, request).Ok? ==>
              var (events, done) := ReadWire(p, caller, less, logs, request).value;
              && FilterFromRequest(request).Ok?
              && Descending(less, events)
              && AllMatch(less, logs[|logs| - 1], FilterFromRequest(request).value, events)
              && (done ==> Covers(less, logs[0], FilterFromRequest(request).value, events))
  {
    hide ReadWire, FilterFromRequest, ReadPages, Descending, AllMatch, Covers;
    WireIsPositional(p, caller, less, logs, request);
    if ReadWire(p, caller, less, logs, request).Ok? {
      GrowingPages(less, logs, FilterFromRequest(request).value);
    }
  }

  /** A page of projectable events goes out. */
  lemma AdmittedPage(p: Policy, reader: string, less: IdOrder, log: Log, request: ListRequest)
    requires reader in p.readers && Admits(p, reader, request.fields.scopeType, request.fields.scopeId)
    requires FilterFromRequest(request).Ok?
    requires AllProjectable(ListPage(less, log, FilterFromRequest(request).value).events)
    ensures AnswerList(p, Some(reader), less, log, request).Ok?
  {}

  /** Whatever a reader collects has passed projection. */
  lemma {:induction false} WireIsProjectable(
    p: Policy, caller: Option<string>, less: IdOrder, logs: seq<Log>, request: ListRequest)
    ensures var answer := ReadWire(p, caller, less, logs, request);
            answer.Ok? ==> AllProjectable(answer.value.0)
    decreases |logs|
  {
    hide AnswerList, ListPage, Projectable;
    if logs != [] {
      AnsweredPage(p, caller, less, logs[0], request);
      var answer := AnswerList(p, caller, less, logs[0], request);
      if answer.Ok? && answer.value.nextCursor.Some? {
        WireIsProjectable(p, caller, less, logs[1..], request.(cursor := answer.value.nextCursor));
      }
    }
  }

  /** An admitted reader of a log at rest gets the whole listing, in as many requests as there are
    pages, exactly when every matching event can be projected; one that cannot stops the paging. */
  lemma RestingWirePaging(
    p: Policy, reader: string, less: IdOrder, log: Log, request: ListRequest, n: nat)
    requires StrictTotal(less) && UniqueIds(log)
    requires reader in p.readers && Admits(p, reader, request.fields.scopeType, request.fields.scopeId)
    requires FilterFromRequest(request).Ok?
    requires n == |Follow(less, log, FilterFromRequest(request).value)|
    ensures var answer := ReadWire(p, Some(reader), less, Repeat(log, n), request);
            var all := Listing(less, log, FilterFromRequest(request).value);
            && (answer.Ok? <==> AllProjectable(all))
            && (answer.Ok? ==> answer.value == (all, true))
  {
    AcceptedLimit(request);
    var f := FilterFromRequest(request).value;
    assert n > 0;
    hide Follow, FilterFromRequest, ReadWire, ReadPages, Listing, AllProjectable;
    WireIsPositional(p, Some(reader), less, Repeat(log, n), request);
    WireIsProjectable(p, Some(reader), less, Repeat(log, n), request);
    RestingPages(less, log, f, n);
    if AllProjectable(Listing(less, log, f)) {
      RestingWireReads(p, reader, less, log, request, n);
    }
  }

  lemma AcceptedLimit(request: ListRequest)
    requires FilterFromRequest(request).Ok?
    ensures 1 <= FilterFromRequest(request).value.limit <= 200
  {}

  /** None of the requests is refused. */
  lemma {:induction false} RestingWireReads(
    p: Policy, reader: string, less: IdOrder, log: Log, request: ListRequest, n: nat)
    requires StrictTotal(less) && UniqueIds(log)
    requires reader in p.readers && Admits(p, reader, request.fields.scopeType, request.fields.scopeId)
    requires FilterFromRequest(request).Ok?
    requires AllProjectable(Listing(less, log, FilterFromRequest(request).value))
    ensures ReadWire(p, Some(reader), less, Repeat(log, n), request).Ok?
    decreases n
  {
    hide AnswerList, FilterFromRequest, AllProjectable, WireCursorOf, PositionOf, Admits, Listing, StrictTotal, UniqueIds;
    if n > 0 {
      var f := FilterFromRequest(request).value;
      var all := Listing(less, log, f);
      AcceptedLimit(request);
      PageShape(less, log, f);
      ProjectableSlice(all, 0, if f.limit < |all| then f.limit else |all|);
      AdmittedPage(p, reader, less, log, request);
      AnsweredPage(p, Some(reader), less, log, request);
      var response := AnswerList(p, Some(reader), less, log, request).value;
      if response.nextCursor.Some? {
        CursorIsAccepted(p, Some(reader), less, log, request);
        RestOfListing(less, log, f, f.limit - 1);
        ProjectableSlice(all, f.limit, |all|);
        assert all[f.limit..|all|] == all[f.limit - 1 + 1..];
        assert response.events[f.limit - 1] == all[f.limit - 1];
        RestingWireReads(p, reader, less, log, request.(cursor := response.nextCursor), n - 1);
        assert Repeat(log, n)[1..] == Repeat(log, n - 1);
      }
    }
  }

  // ---- Scope ceilings ----

  /** The two logs hold the same events among those that carry a pair listed for the reader. */
  ghost predicate AgreeInScope(p: Policy, reader: string, a: Log, b: Log) {
    forall e :: EventInCeiling(p, reader, e) ==> (e in a <==> e in b)
  }

  lemma ScopedGet(p: Policy, caller: Option<string>, a: Log, b: Log, id: string)
    requires UniqueIds(a) && UniqueIds(b)
    requires caller.Some? ==> AgreeInScope(p, caller.value, a, b)
    ensures AnswerGet(p, caller, a, id) == AnswerGet(p, caller, b, id)
  {
    var x, y := Find(a, id), Find(b, id);
    if caller.Some? && x.Some? {
      AdmitsExactly(p, caller.value, x.value.intent.scopeType, x.value.intent.scopeId);
      UniqueFind(b, id);
      assert EventInCeiling(p, caller.value, x.value) ==> x.value in b;
    }
    if caller.Some? && y.Some? {
      AdmitsExactly(p, caller.value, y.value.intent.scopeType, y.value.intent.scopeId);
      UniqueFind(a, id);
      assert EventInCeiling(p, caller.value, y.value) ==> y.value in a;
    }
    hide Admits, InCeiling, Projectable;
  }

  /** A scoped request selects only events of its scope. */
  lemma AdmittedFilter(p: Policy, reader: string, less: IdOrder, request: ListRequest, e: StoredEvent)
    requires Admits(p, reader, request.fields.scopeType, request.fields.scopeId) && FilterFromRequest(request).Ok?
    requires Matches(less, FilterFromRequest(request).value, e)
    ensures EventInCeiling(p, reader, e)
  {
    AdmitsExactly(p, reader, request.fields.scopeType, request.fields.scopeId);
    AdmitsExactly(p, reader, e.intent.scopeType, e.intent.scopeId);
    MatchedScope(p, reader, less, request, e);
  }

  lemma MatchedScope(p: Policy, reader: string, less: IdOrder, request: ListRequest, e: StoredEvent)
    requires Admits(p, reader, request.fields.scopeType, request.fields.scopeId) && FilterFromRequest(request).Ok?
    requires Matches(less, FilterFromRequest(request).value, e)
    ensures Admits(p, reader, e.intent.scopeType, e.intent.scopeId)
  {}

  lemma ScopedList(p: Policy, caller: Option<string>, less: IdOrder, a: Log, b: Log, request: ListRequest)
    requires StrictTotal(less) && UniqueIds(a) && UniqueIds(b)
    requires caller.Some? ==> AgreeInScope(p, caller.value, a, b)
    ensures AnswerList(p, caller, less, a, request) == AnswerList(p, caller, less, b, request)
  {
    if && caller.Some? && Admits(p, caller.value, request.fields.scopeType, request.fields.scopeId)
       && FilterFromRequest(request).Ok? {
      var f := FilterFromRequest(request).value;
      forall e ensures e in a && Matches(less, f, e) <==> e in b && Matches(less, f, e) {
        if Matches(less, f, e) {
          AdmittedFilter(p, caller.value, less, request, e);
        }
      }
      ListingDetermined(less, a, f, b, f);
    }
  }

  datatype Call = ListCall(request: ListRequest) | GetCall(id: string)
  datatype Answer = Listed(list: ListAnswer) | Got(get: GetAnswer)

  function AnswerCall(p: Policy, caller: Option<string>, less: IdOrder, log: Log, call: Call): Answer {
    match call
    case ListCall(request) => Listed(AnswerList(p, caller, less, log, request))
    case GetCall(id) => Got(AnswerGet(p, caller, log, id))
  }

  /** The answers to a sequence of calls, each on the log as it is then. */
  function AnswerCalls(p: Policy, caller: Option<string>, less: IdOrder, logs: seq<Log>, calls: seq<Call>): seq<Answer>
    requires |logs| == |calls|
  {
    if calls == [] then []
    else [AnswerCall(p, caller, less, logs[0], calls[0])] + AnswerCalls(p, caller, less, logs[1..], calls[1..])
  }

  /** Two histories that differ only outside a reader's scopes give it the same pages, cursors,
    events and refusals, whatever it asks. */
  lemma {:induction false} ScopeCeiling(
    p: Policy, caller: Option<string>, less: IdOrder, left: seq<Log>, right: seq<Log>, calls: seq<Call>)
    requires StrictTotal(less) && |left| == |right| == |calls|
    requires forall i :: 0 <= i < |calls| ==> UniqueIds(left[i]) && UniqueIds(right[i])
    requires forall i :: 0 <= i < |calls| && caller.Some? ==> AgreeInScope(p, caller.value, left[i], right[i])
    ensures AnswerCalls(p, caller, less, left, calls) == AnswerCalls(p, caller, less, right, calls)
  {
    if calls != [] {
      match calls[0] {
        case ListCall(request) => ScopedList(p, caller, less, left[0], right[0], request);
        case GetCall(id) => ScopedGet(p, caller, left[0], right[0], id);
      }
      ScopeCeiling(p, caller, less, left[1..], right[1..], calls[1..]);
    }
  }

  /** An append outside the reader's scopes is one such difference. */
  lemma OutOfScopeAppend(p: Policy, reader: string, log: Log, intent: Intent, now: DateTime)
    requires UniqueIds(log) && !InCeiling(p, reader, intent.scopeType, intent.scopeId)
    ensures AgreeInScope(p, reader, log, Append(log, intent, now).0)
    ensures UniqueIds(Append(log, intent, now).0)
  {}

  // ---- Keyed delivery ----

  /** Sending one keyed request again, after any other appends, gives the very same answer, whatever
    that was, and stores nothing new: not even a writer who was told that its stored event cannot be
    projected stores it twice. */
  lemma KeyedReplay(
    p: Policy, source: string, log: Log, request: AppendRequest, digest: Digest, freshId: string, now: DateTime,
    more: Log, laterId: string, later: DateTime)
    requires UniqueIds(log) && request.idempotencyKey.Some?
    ensures var (first, answer) := AnswerAppend(p, Some(source), log, request, digest, freshId, now);
            AnswerAppend(p, Some(source), first + more, request, digest, laterId, later) == (first + more, answer)
  {
    hide Projectable;
    if IntentFromRequest(request, source, freshId, digest).Ok? {
      var intent := IntentFromRequest(request, source, freshId, digest).value;
      SameIntent(request, source, freshId, laterId, digest);
      hide IntentFromRequest;
      var first := Append(log, intent, now).0;
      AppendThenFind(log, intent, now);
      FindInGrownLog(first, more, intent.id);
    }
  }

  /** A keyed request makes the same intent whatever fresh id is at hand. */
  lemma SameIntent(request: AppendRequest, source: string, freshId: string, laterId: string, digest: Digest)
    requires request.idempotencyKey.Some?
    ensures IntentFromRequest(request, source, laterId, digest) == IntentFromRequest(request, source, freshId, digest)
  {
    hide ValidRequest, ParseTimestamp, MakeIntent, StableId;
  }

  lemma AppendThenFind(log: Log, intent: Intent, now: DateTime)
    ensures var (grown, result) := Append(log, intent, now);
            Find(grown, intent.id).Some? && (result.Ok? ==> Find(grown, intent.id) == Some(result.value))
  {
    if Find(log, intent.id).None? {
      FindAppended(log, StoredEvent(intent, now));
    }
  }

  // ---- The answers in the terms of the caller ----

  /** A reader gets an event exactly when it is stored under the id, carries one of the reader's pairs
    (or the reader has no entry), and may leave; and what it is told otherwise. */
  lemma GetExactly(p: Policy, caller: Option<string>, log: Log, id: string)
    requires UniqueIds(log)
    ensures var answer := AnswerGet(p, caller, log, id);
            var known := caller.Some? && caller.value in p.readers;
            && (answer == Err(Domain(GetUnauthorized)) <==> !known)
            && (answer == Err(Domain(InvalidId)) <==> known && !TextAllowed(id, 512))
            && (answer == Err(Domain(NotFound)) <==>
                  known && TextAllowed(id, 512)
                  && forall e :: e in log && e.intent.id == id ==> !EventInCeiling(p, caller.value, e))
            && (answer == Err(Runtime(ProjectionFailed)) <==>
                  known && TextAllowed(id, 512)
                  && exists e :: e in log && e.intent.id == id && EventInCeiling(p, caller.value, e) && !Projectable(e))
            && (forall e :: answer == Ok(e) <==>
                  known && TextAllowed(id, 512)
                  && e in log && e.intent.id == id && EventInCeiling(p, caller.value, e) && Projectable(e))
  {
    TextExactly(id, 512);
    UniqueFind(log, id);
    if caller.Some? && Find(log, id).Some? {
      var e := Find(log, id).value;
      AdmitsExactly(p, caller.value, e.intent.scopeType, e.intent.scopeId);
    }
    hide Projectable, Admits, InCeiling, TextAllowed, ValidRequired, UniqueIds, Find;
  }

  /** When a listing is refused, and that it never shows more than the reader's pairs. */
  lemma ListExactly(p: Policy, caller: Option<string>, less: IdOrder, log: Log, request: ListRequest)
    ensures var answer := AnswerList(p, caller, less, log, request);
            var known := caller.Some? && caller.value in p.readers
                         && InCeiling(p, caller.value, request.fields.scopeType, request.fields.scopeId);
            && (answer == Err(Domain(ListUnauthorized)) <==> !known)
            && (answer == Err(Domain(InvalidQuery)) <==> known && Refusable(request))
            && (answer.Ok? ==>
                  known && !Refusable(request)
                  && forall e :: e in answer.value.events ==> e in log && EventInCeiling(p, caller.value, e))
  {
    RequestExactly(request);
    if caller.Some? {
      AdmitsExactly(p, caller.value, request.fields.scopeType, request.fields.scopeId);
    }
    var answer := AnswerList(p, caller, less, log, request);
    hide Refusable, InCeiling, EventInCeiling, Admits, FilterFromRequest, AllProjectable, ListPage;
    if answer.Ok? {
      forall e | e in answer.value.events ensures e in log && EventInCeiling(p, caller.value, e) {
        ListedInCeiling(p, caller, less, log, request, e);
      }
    }
  }

  lemma ListedInCeiling(
    p: Policy, caller: Option<string>, less: IdOrder, log: Log, request: ListRequest, e: StoredEvent)
    requires AnswerList(p, caller, less, log, request).Ok?
    requires e in AnswerList(p, caller, less, log, request).value.events
    ensures caller.Some? && e in log && EventInCeiling(p, caller.value, e)
  {
    AnsweredPage(p, caller, less, log, request);
    hide InCeiling, EventInCeiling, Admits, FilterFromRequest, AllProjectable, ListPage;
    PageElements(less, log, FilterFromRequest(request).value, e);
    AdmittedFilter(p, caller.value, less, request, e);
  }

  lemma PageElements(less: IdOrder, log: Log, f: Filter, e: StoredEvent)
    requires 1 <= f.limit <= 200 && e in ListPage(less, log, f).events
    ensures e in log && Matches(less, f, e)
  {
    PageShape(less, log, f);
    ListingElements(less, log, f, e);
    hide Listing, ListPage, Matches;
  }

  /** What an accepted append stores and returns, in the terms of the request and its caller. */
  lemma AppendExactly(
    p: Policy, caller: Option<string>, log: Log, request: AppendRequest, digest: Digest, freshId: string, now: DateTime)
    ensures var (after, answer) := AnswerAppend(p, caller, log, request, digest, freshId, now);
            && (answer == Err(Domain(AppendUnauthorized)) <==> caller.None? || caller.value !in p.writers)
            && (answer.Ok? ==>
                  var e := answer.value;
                  && caller.Some? && caller.value in p.writers && e in after
                  && e.intent.sourceInstance == caller.value
                  && Some(e.intent.occurredAt) == ParseTimestamp(request.occurredAt)
                  && e.intent.id == (if request.idempotencyKey.None? then freshId
                                     else StableId(digest, caller.value, request.idempotencyKey.value))
                  && Recorded(e.intent) == Requested(request).(metadata := RedactMembers(request.metadata)))
  {
    hide Projectable, ParseTimestamp, Recorded, Requested, RedactMembers, StableId;
    if caller.Some? && caller.value in p.writers {
      IntentExactly(request, caller.value, freshId, digest);
      AcceptedExactly(request, caller.value, freshId, digest);
      hide IntentFromRequest;
      var accepted := IntentFromRequest(request, caller.value, freshId, digest);
      if accepted.Ok? {
        AppendThenFind(log, accepted.value, now);
      }
    }
  }

  /** The time is the one that is written in the request, moved to UTC. */
  lemma AppendKeepsTheTime(
    p: Policy, caller: Option<string>, log: Log, request: AppendRequest, digest: Digest, freshId: string, now: DateTime,
    t: DateTime, sign: char, hours: nat, minutes: nat)
    requires WireYear(t) && sign in "+-" && hours <= 23 && minutes <= 59
    requires request.occurredAt == LocalText(t, OffsetText(sign, hours, minutes))
    ensures -1440 < OffsetMinutes(sign, hours, minutes) < 1440
    ensures var answer := AnswerAppend(p, caller, log, request, digest, freshId, now).1;
            answer.Ok? ==> answer.value.intent.occurredAt == ToUtc(t, OffsetMinutes(sign, hours, minutes))
  {
    ParsesLocal(t, sign, hours, minutes);
    hide ParseTimestamp, LocalText, OffsetText, AnswerAppend, ToUtc;
    AppendExactly(p, caller, log, request, digest, freshId, now);
  }

  /** An event under a new id is stored as it was accepted, at the store's time, and returned if it may
    leave. */
  lemma NewAppendIsStored(
    p: Policy, source: string, log: Log, request: AppendRequest, digest: Digest, freshId: string, now: DateTime)
    requires source in p.writers && IntentFromRequest(request, source, freshId, digest).Ok?
    requires forall e :: e in log ==> e.intent.id != IntentFromRequest(request, source, freshId, digest).value.id
    ensures var (after, answer) := AnswerAppend(p, Some(source), log, request, digest, freshId, now);
            var e := StoredEvent(IntentFromRequest(request, source, freshId, digest).value, now);
            && after == log + [e]
            && answer == if Projectable(e) then Ok(e) else Err(Runtime(ProjectionFailed))
  {
    hide Projectable, IntentFromRequest;
    var id := IntentFromRequest(request, source, freshId, digest).value.id;
    assert Find(log, id).None?;
  }

  // ---- What a listing request returns, in the terms of the request ----

  /** The fields are those asked for, the time lies between the two that the request names, and the
    event is below the place its cursor names. */
  predicate AskedFor(less: IdOrder, r: ListRequest, e: StoredEvent) {
    var t := e.intent.occurredAt;
    && MatchesFields(r.fields, e.intent)
    && (Named(r.occurredAfter).Some? ==> !Before(t, Named(r.occurredAfter).value))
    && (Named(r.occurredBefore).Some? ==> !Before(Named(r.occurredBefore).value, t))
    && (r.cursor.Some? && ParseTimestamp(r.cursor.value.occurredAt).Some? ==>
          Below(less, PositionOf(e), Position(ParseTimestamp(r.cursor.value.occurredAt).value, r.cursor.value.id)))
  }

  lemma AskedIsMatched(less: IdOrder, r: ListRequest, e: StoredEvent)
    requires FilterFromRequest(r).Ok?
    ensures Matches(less, FilterFromRequest(r).value, e) <==> AskedFor(less, r, e)
  {
    RequestExactly(r);
    hide FilterFromRequest, ParseTimestamp, Refusable, Before, MatchesFields;
  }

  /** Whatever is appended between the requests, following cursors returns what was asked for: strictly
    descending, nothing else, and in the end all of it that was there at the first request. */
  lemma WireExactly(p: Policy, caller: Option<string>, less: IdOrder, logs: seq<Log>, request: ListRequest)
    requires StrictTotal(less) && Growing(logs) && logs != []
    ensures var answer := ReadWire(p, caller, less, logs, request);
            answer.Ok? ==>
              && Descending(less, answer.value.0)
              && (forall e :: e in answer.value.0 ==> e in logs[|logs| - 1] && AskedFor(less, request, e))
              && (answer.value.1 ==> forall e :: e in logs[0] && AskedFor(less, request, e) ==> e in answer.value.0)
  {
    hide ReadWire, FilterFromRequest, AskedFor, Matches, Descending, Growing;
    WirePaging(p, caller, less, logs, request);
    var answer := ReadWire(p, caller, less, logs, request);
    if answer.Ok? {
      forall e ensures Matches(less, FilterFromRequest(request).value, e) <==> AskedFor(less, request, e) {
        AskedIsMatched(less, request, e);
      }
    }
  }

  /** The filter a request asks for, put together by hand. */
  function AskedFilter(r: ListRequest): Filter {
    Filter(r.fields, Named(r.occurredAfter), Named(r.occurredBefore),
           if r.cursor.Some? && ParseTimestamp(r.cursor.value.occurredAt).Some?
           then Some(Position(ParseTimestamp(r.cursor.value.occurredAt).value, r.cursor.value.id)) else None,
           r.limit)
  }

  /** Over a log at rest a request that is not refused returns, to a reader who may ask it, exactly the
    stored events that it asks for, each once and in order, if all of them may leave. */
  lemma RestingWireExactly(p: Policy, reader: string, less: IdOrder, log: Log, request: ListRequest, n: nat)
    requires StrictTotal(less) && UniqueIds(log)
    requires reader in p.readers && InCeiling(p, reader, request.fields.scopeType, request.fields.scopeId)
    requires !Refusable(request)
    requires n == |Follow(less, log, AskedFilter(request))|
    ensures var answer := ReadWire(p, Some(reader), less, Repeat(log, n), request);
            && (answer.Ok? <==> forall e :: e in log && AskedFor(less, request, e) ==> Projectable(e))
            && (answer.Ok? ==>
                  && answer.value.1 && Descending(less, answer.value.0)
                  && forall e :: e in answer.value.0 <==> e in log && AskedFor(less, request, e))
  {
    RequestExactly(request);
    AdmitsExactly(p, reader, request.fields.scopeType, request.fields.scopeId);
    AskedFilterIsRead(request);
    var f := AskedFilter(request);
    hide FilterFromRequest, AskedFilter, Refusable, InCeiling, Admits, ReadWire, Follow, AskedFor, Matches, Projectable;
    RestingWirePaging(p, reader, less, log, request, n);
    ListingDescends(less, log, f);
    var all := Listing(less, log, f);
    forall e ensures e in all <==> e in log && AskedFor(less, request, e) {
      ListingElements(less, log, f, e);
      AskedIsMatched(less, request, e);
    }
    hide Listing, Descending;
    assert AllProjectable(all) <==> forall e :: e in all ==> Projectable(e);
  }

  lemma AskedFilterIsRead(r: ListRequest)
    requires !Refusable(r)
    ensures FilterFromRequest(r) == Ok(AskedFilter(r)) && 1 <= AskedFilter(r).limit <= 200
  {
    RequestExactly(r);
    hide FilterFromRequest, ParseTimestamp, FieldsAllowed, TextAllowed, Before;
  }

  function Printed(t: Option<DateTime>): Option<string>
    requires t.Some? ==> WireYear(t.value)
  {
    match t case Some(v) => Some(Print(v)) case None => None
  }

  /** A request without cursor for the time between two printed instants, either of which may be absent:
    it is accepted when they are in order, and asks for exactly the events in between. */
  lemma AsksBetween(less: IdOrder, fields: FieldFilter, a: Option<DateTime>, b: Option<DateTime>, limit: int, e: StoredEvent)
    requires (a.Some? ==> WireYear(a.value)) && (b.Some? ==> WireYear(b.value))
    ensures var request := ListRequest(fields, Printed(a), Printed(b), None, limit);
            && (Refusable(request) <==>
                  limit < 1 || limit > 200 || !FieldsAllowed(fields) || (a.Some? && b.Some? && Before(b.value, a.value)))
            && (AskedFor(less, request, e) <==>
                  && MatchesFields(fields, e.intent)
                  && (a.Some? ==> !Before(e.intent.occurredAt, a.value))
                  && (b.Some? ==> !Before(b.value, e.intent.occurredAt)))
  {
    if a.Some? {
      PrintParse(a.value);
    }
    if b.Some? {
      PrintParse(b.value);
    }
    hide ParseTimestamp, Print, FieldsAllowed, MatchesFields, Before;
  }
}
