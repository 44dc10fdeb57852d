# Verified model of the Lenso audit log

The audit log accepts events from configured writers, stores each once, and serves them back to configured
readers in pages. Three stores implement one contract: an in-memory vector, PostgreSQL and Cloudflare D1. This
project models that contract, the three implementations, the service in front of them and the operator that
adopts a legacy PostgreSQL schema, and proves what they promise for every input, every run and every
interleaving.

## How the model is laid out

- `Wrappers`, `Order`, `Decimal`, `Utf8`: option and result types, orders on text, decimal digits, UTF-8.
- `Time`, `Rfc3339`, `Rounding`: calendar instants as `chrono` keeps them (leap seconds included), conversion to UTC,
  microsecond truncation, printing, parsing, the sortable key of the D1 store, and bounds rounded by a driver.
- `Json`, `JsonText`, `Compact`, `Envelope`: JSON values, the compact text and its decoder, that no text for a value is
  shorter, the legacy metadata envelope.
- `Metadata`, `Redaction`, `Identity`: the metadata limits, redaction, stable ids and checksums.
- `Events`, `ReferenceStore`, `Paging`, `Service`: requests and filters, the in-memory store and the meaning of
  append, list and get, paging, and the service with its caller policy.
- `Sql`, `Conditions`, `PgQuery`, `PgStore`: the fragment of SQL that listings use with three-valued logic, the
  query builder, and the PostgreSQL repository with concurrent appends.
- `D1Query`, `D1Paging`, `D1Store`: the D1 query, paging by its keys, and the store, with replies that are lost or damaged after commit.
- `NormalizeSql`, `Adoption`: the catalog-text scanner and the adoption protocol.

Objects that the program updates in place (stores, query builder, byte counter, digest, database session) are
classes whose methods are proved against functions on values. Concurrency is a state machine whose steps are
single statements: PostgreSQL appends take two, a D1 append one, adoption one for each lock, check and write.

Parameters of the model: the order of ids (any strict total order for PostgreSQL, code points for the others),
the 256-bit digest, clocks, fresh ids, the width of a machine word, how the PostgreSQL driver rounds the instants
it binds, and what becomes of each D1 request.

## Where the code does less than its documents say

- Metadata is measured before redaction and measured again when it is read. Redaction can lengthen it, so an
  accepted event may be refused by projection: `Redaction.RedactedWithinBounds` says exactly when,
  `Redaction.AcceptedMetadataMayOutgrowTheLimit` gives the family.
- PostgreSQL compares stored times, which are whole microseconds, with filter bounds that the driver rounds. A
  bound with a finer fraction can select an event that `matches` does not accept
  (`PgQuery.HalfAMicrosecond`); `PgQuery.PgSelectsExactly` says exactly when it does not matter, for every way
  of rounding and with leap seconds, and `PgQuery.PgSelectsExactlyTruncated` puts it in fractions for a driver
  that truncates as the append does.
- PostgreSQL rows are compared after the legacy envelope is applied. A replay of metadata with a reserved key is
  refused as a conflict, and an intent that carries the envelope itself is accepted: `PgStore.ReplayMeetsRow`,
  with a concrete request in `PgStore.ReservedRequestIsRefused`.
- A timestamp of year 0 or 9999 with an offset can leave the years that may be projected: `Time.ToUtcWireYear`
  says exactly when, `Rfc3339.ParsesToYearTenThousand` and `Rfc3339.ParsesToYearMinusOne` give texts.
- Year 10000 sorts out of place in D1: `D1Query.YearTenThousandIsMisplaced`, `D1Query.D1ListsExactly` and
  `D1Query.D1ListingExactly` say exactly when that shows, and `D1Paging.GrowingKeyPages` that paging stays
  complete by key all the same.

## Model

| member | source | states |
|---|---|---|
| ReferenceStore.UniqueFind | crates/lenso-audit-log-postgres-plugin/src/storage.rs:118-126 | under distinct ids a lookup finds exactly the event with the id, and none exactly when there is none |
| ReferenceStore.AppendKeepsLog | crates/lenso-audit-log-postgres-plugin/src/storage.rs:77-96 | an append keeps ids unique and only extends the log |
| ReferenceStore.Sorts | crates/lenso-audit-log-postgres-plugin/src/storage.rs:107-112 | sorting permutes, and events with distinct ids come out strictly descending by time and id |
| ReferenceStore.DescendingIsUnique | crates/lenso-audit-log-postgres-plugin/src/storage.rs:107-112 | there is one strictly descending arrangement of a set of events |
| ReferenceStore.ListingElements | crates/lenso-audit-log-postgres-plugin/src/storage.rs:100-106 | an event is listed exactly when it is stored and matches |
| ReferenceStore.ListingDescends | crates/lenso-audit-log-postgres-plugin/src/storage.rs:107-112 | a listing is strictly descending, so nothing is listed twice |
| ReferenceStore.ListingDetermined | crates/lenso-audit-log-postgres-plugin/src/storage.rs:98-116 | two logs with the same matching events have the same listing |
| ReferenceStore.FixtureStore.FindEvent | crates/lenso-audit-log-postgres-plugin/src/storage.rs:80-85 | the search over the vector finds the event stored under the id |
| ReferenceStore.FixtureStore.AppendEvent | crates/lenso-audit-log-postgres-plugin/src/storage.rs:77-96 | new log and answer of the in-memory append: insert, replay of the same intent, or conflict; nothing changes when the store fails |
| ReferenceStore.FixtureStore.ListEvents | crates/lenso-audit-log-postgres-plugin/src/storage.rs:98-116 | filter, sort and truncate in place yield the first limit + 1 events of the listing |
| ReferenceStore.FixtureStore.GetEvent | crates/lenso-audit-log-postgres-plugin/src/storage.rs:118-126 | the stored event under the id, or none, or a failure |
| Paging.RestOfListing | crates/lenso-audit-log-core/src/model.rs:382-385 | below the cursor of the k-th event lies exactly the listing after the k-th event |
| Paging.FollowReturnsListing | crates/lenso-audit-log-core/src/lib.rs:165-192 | following cursors ends, the pages join to the whole listing in order, and all pages but the last are full |
| Paging.RestingPages | crates/lenso-audit-log-core/src/lib.rs:165-192 | a log at rest takes as many requests as it has pages and gives the whole listing |
| Paging.GrowingPages | crates/lenso-audit-log-core/src/lib.rs:165-192 | over any appends between requests: strictly descending, no event twice, none that does not match, and at the end every event that matched at the first request |
| Service.AuditService.AppendEvent | crates/lenso-audit-log-core/src/lib.rs:91-122 | answer and new log of an append: caller check, validation, pending id replaced by a fresh one when there is no key, conflict, projection; and exactly which answer when the store fails |
| Service.AuditService.GetEvent | crates/lenso-audit-log-core/src/lib.rs:124-149 | answer of a read: caller, id, not found, not found outside the scope ceiling, projection; and exactly which answer when the store fails |
| Service.AuditService.ListEvents | crates/lenso-audit-log-core/src/lib.rs:151-193 | answer of a listing: caller, scope ceiling, validation, page and cursor; and exactly which answer when the store fails |
| Service.AuditService.ProjectPage | crates/lenso-audit-log-core/src/lib.rs:171-192 | truncation to the page, the cursor on its last event, and a page that leaves only if every event on it may |
| Service.AuditService.MayAllLeave | crates/lenso-audit-log-core/src/lib.rs:184-188 | all events of a page are checked |
| Service.AdmitsExactly | crates/lenso-audit-log-core/src/lib.rs:52-58 | a reader is admitted to a scope exactly when it has no entry among the scope ceilings or the entry lists this pair of type and id |
| Service.AppendExactly | crates/lenso-audit-log-core/src/lib.rs:91-122 | a successful append, read off the request: an authorized writer, which becomes the source; the instant of the timestamp; the fresh id without a key and the stable id of caller and key with one; the remaining fields as sent, metadata redacted |
| Service.AppendKeepsTheTime | crates/lenso-audit-log-core/src/model.rs:233-234 | an accepted timestamp that writes a local time with an offset is stored as that local time moved to UTC by that offset |
| Service.NewAppendIsStored | crates/lenso-audit-log-core/src/lib.rs:111-121 | a valid request under a new id is stored as one more event, and returned if it can be projected |
| Service.GetExactly | crates/lenso-audit-log-core/src/lib.rs:124-149 | each answer of a read if and only if: unauthorized, invalid id, not found (absent or outside the listed pairs), projection failure, and the stored event for every reader that may see it |
| Service.ListExactly | crates/lenso-audit-log-core/src/lib.rs:151-170 | unauthorized and invalid query if and only if; every event on a page is stored and carries a pair that the reader's entry lists |
| Service.AnsweredPage | crates/lenso-audit-log-core/src/lib.rs:165-192 | a successful answer is a page of the listing, all of it projectable, with a cursor exactly when more follows |
| Service.CursorIsAccepted | crates/lenso-audit-log-core/src/lib.rs:176-183 | every cursor handed out is accepted by the next request and decodes to the exact position of the last returned event |
| Service.WireIsPositional | crates/lenso-audit-log-core/src/lib.rs:176-183 | pages read by sending printed cursors back are the pages read by position |
| Service.WireIsProjectable | crates/lenso-audit-log-core/src/lib.rs:184-188 | whatever a reader collects has passed projection |
| Service.WirePaging | crates/lenso-audit-log-core/src/lib.rs:151-193 | the guarantee of Paging.GrowingPages for requests that go over the wire |
| Service.RestingWirePaging | crates/lenso-audit-log-core/src/lib.rs:151-193 | an admitted reader of a log at rest gets the whole listing exactly when every matching event can be projected; one that cannot stops the paging |
| Service.AskedIsMatched | crates/lenso-audit-log-core/src/model.rs:366-386 | an event matches the filter exactly when it has what the request asks for: fields, both bounds as read from their texts, and the cursor |
| Service.WireExactly | crates/lenso-audit-log-core/src/lib.rs:151-193 | reading over the wire while the log grows, stated by the request: strictly descending, only stored events that were asked for, and in the end all that were there at the first request |
| Service.RestingWireExactly | crates/lenso-audit-log-core/src/lib.rs:151-193 | a log at rest is read without an error exactly when all events asked for can be projected, and then exactly these are returned, in order |
| Service.AsksBetween | crates/lenso-audit-log-core/src/model.rs:316-358 | for bounds printed from instants, one or none of them missing: refused exactly for a limit outside 1 to 200, an invalid field or bounds in the wrong order; otherwise it asks for the events whose fields match and whose time lies between the bounds, both included |
| Service.ScopedGet | crates/lenso-audit-log-core/src/lib.rs:138-144 | logs that hold the same events with the pairs listed for the reader give the same answer to a read by id, not-found answers included |
| Service.ScopedList | crates/lenso-audit-log-core/src/lib.rs:158-170 | logs that hold the same events with the pairs listed for the reader give the same page, cursor or refusal |
| Service.ScopeCeiling | crates/lenso-audit-log-core/src/lib.rs:52-58 | over any sequence of calls, histories that differ only in events without a pair listed for the reader give identical answers |
| Service.OutOfScopeAppend | crates/lenso-audit-log-core/src/lib.rs:52-58 | an append of an event without a listed pair is such a difference |
| Service.SameIntent | crates/lenso-audit-log-core/src/lib.rs:101-110 | a keyed request makes the same intent whatever fresh id is at hand |
| Service.KeyedReplay | crates/lenso-audit-log-core/src/lib.rs:91-122 | sending a keyed request again after any other appends gives the very same answer, failures included, and stores nothing new |
| Events.RecordsTheRequest | crates/lenso-audit-log-core/src/model.rs:229-272 | the flat event holds everything the request says, with redacted metadata: it can be put together again |
| Events.AcceptedExactly | crates/lenso-audit-log-core/src/model.rs:185-232 | a request is accepted if and only if each text, key, scope, resource and context keeps its literal limit, the metadata is within bounds and the timestamp can be read |
| Events.IntentExactly | crates/lenso-audit-log-core/src/model.rs:229-272 | time, source, id and every other field of the accepted intent in terms of the request |
| Events.RequestExactly | crates/lenso-audit-log-core/src/model.rs:298-358 | a listing request is refused if and only if its limit lies outside 1 to 200, a field, bound or cursor is invalid, or the bounds are in the wrong order; otherwise the filter holds the named instants |
| Events.ProjectableExactly | crates/lenso-audit-log-core/src/model.rs:460-517 | an event may leave if and only if every text keeps its literal limit, both years are 0 to 9999 and the metadata is within bounds |
| Events.TextExactly | crates/lenso-audit-log-core/src/model.rs:604-610 | which texts pass a limit: not empty, at most so many characters, and no control character |
| Events.AcceptedText | crates/lenso-audit-log-core/src/model.rs:185-274 | every text field of an accepted event passes the projection limits |
| Events.AcceptedIsProjectable | crates/lenso-audit-log-core/src/model.rs:460-517 | an accepted event passes projection exactly when its UTC year and creation year are 0 to 9999 and its encoding leaves room for the growth by redaction |
| Events.StableIdIsValid | crates/lenso-audit-log-core/src/model.rs:528-543 | a stable id passes the id limit |
| Events.WireTimestampIsWireYear | crates/lenso-audit-log-core/src/model.rs:600-602 | the length limit on printed timestamps never refuses a year in range |
| Events.BelowIsStrictTotal | crates/lenso-audit-log-core/src/model.rs:382-385 | the keyset order is strict and total whenever the id order is |
| Events.CursorRoundTrip | crates/lenso-audit-log-core/src/model.rs:330-342 | the cursor of an event that passed projection parses to that event's position and changes nothing else in the request |
| Time.DateOrderIsDayOrder | crates/lenso-audit-log-core/src/model.rs:366-385 | comparing dates field by field is comparing day counts, in both directions |
| Time.BeforeIsChronological | crates/lenso-audit-log-core/src/model.rs:366-385 | comparing instants is comparing seconds and then fractions, leap seconds included |
| Time.ToUtcShiftsByOffset | crates/lenso-audit-log-core/src/model.rs:594-598 | conversion to UTC shifts by exactly the offset and keeps the fraction |
| Time.ToUtcWireYear | crates/lenso-audit-log-core/src/model.rs:594-602 | exactly which local times of years 0 to 9999 leave that range by conversion |
| Time.TruncateKeepsMicros | crates/lenso-audit-log-postgres-plugin/src/repository.rs:154-157 | truncation keeps the count of microseconds and drops the rest |
| Time.TruncateIdentifies | crates/lenso-audit-log-postgres-plugin/src/repository.rs:154-157 | two instants are truncated alike exactly when they count the same microseconds |
| Rounding.TruncationIsRounding | crates/lenso-audit-log-postgres-plugin/src/repository.rs:154-157 | truncation is one of the roundings to whole microseconds that a driver may do |
| Rounding.SpanMeaning | crates/lenso-audit-log-core/src/model.rs:378-386 | on stored times the bounds of a filter let through exactly a span of whole microseconds |
| Rounding.SpansAgree | crates/lenso-audit-log-core/src/model.rs:378-386 | two spans let through the same positions exactly when they are the same or both vacant |
| Rounding.RoundingIsExact | crates/lenso-audit-log-postgres-plugin/src/repository.rs:285-313 | rounded bounds match the stored events that the filter matches exactly when they come to the same span, leap seconds included |
| Rounding.TruncationIsExact | crates/lenso-audit-log-postgres-plugin/src/repository.rs:285-313 | for a driver that truncates: exactly when the lower end is whole and the cursor is whole or past the upper end, or the cursor lies before the lower end |
| Rounding.WholeBoundsAreExact | crates/lenso-audit-log-postgres-plugin/src/repository.rs:285-313 | bounds in whole microseconds, such as cursors of stored rows, are not touched |
| Rfc3339.PrintParse | crates/lenso-audit-log-core/src/lib.rs:178 | a printed instant of years 0 to 9999 parses to itself (section 5.6 of RFC 3339) |
| Rfc3339.ParsesLocal | crates/lenso-audit-log-core/src/model.rs:594-598 | a text with any offset parses to its local time moved to UTC by that offset |
| Rfc3339.ParsesExactly | crates/lenso-audit-log-core/src/model.rs:594-598 | exactly which texts are read and as which instant: all parts in range, T, t or a space between date and time, second 60 as a leap second, any number of fractional digits cut to nanoseconds, Z, z or an offset up to 23:59 |
| Rfc3339.ParsedYearRange | crates/lenso-audit-log-core/src/model.rs:594-598 | parsed instants lie in UTC years -1 to 10000 |
| Rfc3339.ParsesToYearTenThousand | crates/lenso-audit-log-core/src/model.rs:594-602 | 9999-12-31T23:59:59-01:00 parses to year 10000 |
| Rfc3339.ParsesToYearMinusOne | crates/lenso-audit-log-core/src/model.rs:594-602 | 0000-01-01T00:00:00+00:01 parses to year -1 |
| Rfc3339.KeyOrder | crates/lenso-audit-log-d1-plugin/src/host_facilities.rs:152-155 | keys compare as instants do exactly when both or neither lie in year 10000, and different instants have different keys |
| Rfc3339.KeyParses | crates/lenso-audit-log-d1-plugin/src/host_facilities.rs:152-155 | the key of an instant of years 0 to 9999 is itself a timestamp of that instant |
| Metadata.StructureWithinBounds | crates/lenso-audit-log-core/src/model.rs:612-646 | the traversal with explicit stack, early exits and saturating counter passes exactly when nodes, depth, containers, keys and strings are within their limits |
| Metadata.EnterChildren | crates/lenso-audit-log-core/src/model.rs:620-642 | a node fits exactly when its own limits hold and its children fit one level down |
| Metadata.BoundedJsonCounter.Write | crates/lenso-audit-log-core/src/model.rs:38-46 | a chunk is counted exactly when the total stays within the limit, without overflow, and a refused chunk is not counted |
| Metadata.WriteAll | crates/lenso-audit-log-core/src/model.rs:648-650 | for every way of splitting the output the counter succeeds exactly when the total length is within the limit |
| Metadata.MetadataWithinWireBounds | crates/lenso-audit-log-core/src/model.rs:612-651 | the whole check: structure, portability and encoded size |
| Redaction.WithinBoundsExactly | crates/lenso-audit-log-core/src/model.rs:612-651 | the bounds in numbers: at most 16384 nodes, depth 32, the limits of sizes at every place, only integers of at most 53 bits, at most 65536 bytes of compact text |
| Redaction.PortableExactly | crates/lenso-audit-log-core/src/model.rs:648-651 | portable means that every number at every path lies within 53 bits |
| Redaction.SpelledKeysAreRedacted | crates/lenso-audit-log-core/src/model.rs:553-592 | the marker stands under every key that contains, anywhere, one of the seven words in any mixture of cases and with any underscores, hyphens and spaces inside; under any other ASCII key the value is kept and redacted inside |
| Redaction.SensitiveIsSpelled | crates/lenso-audit-log-core/src/model.rs:575-592 | a key in which a word is spelled is sensitive, and an ASCII key is sensitive only then |
| Redaction.SensitivityIgnoresSpelling | crates/lenso-audit-log-core/src/model.rs:575-592 | case and separators never hide a sensitive key |
| Redaction.SensitivitySurvivesContext | crates/lenso-audit-log-core/src/model.rs:575-592 | text around a sensitive key never hides it |
| Redaction.RedactedPlaces | crates/lenso-audit-log-core/src/model.rs:553-573 | what stands at every path of the redacted value: the marker directly under a sensitive key, nothing below it, and everything else unchanged |
| Redaction.RedactIdempotent | crates/lenso-audit-log-core/src/model.rs:553-573 | redaction is idempotent |
| Redaction.RedactCanonical | crates/lenso-audit-log-core/src/model.rs:561-573 | objects stay maps: keys stay distinct |
| Redaction.RedactWithin | crates/lenso-audit-log-core/src/model.rs:553-573 | node count, depth, sizes and portability never get worse |
| Redaction.RedactedBytes | crates/lenso-audit-log-core/src/model.rs:553-573 | the encoding grows by exactly twelve bytes less the encoding of each replaced value |
| Redaction.RedactionLengthensAtMost | crates/lenso-audit-log-core/src/model.rs:553-573 | by at most eleven bytes for each replaced value |
| Redaction.RedactedWithinBounds | crates/lenso-audit-log-core/src/model.rs:512-515 | metadata accepted before redaction passes the second check exactly when its encoding leaves room for the growth |
| Redaction.AcceptedMetadataMayOutgrowTheLimit | crates/lenso-audit-log-core/src/model.rs:229-238 | a family of accepted metadata that fails the second check |
| Identity.StableEventId | crates/lenso-audit-log-core/src/model.rs:528-543 | the digest is fed the length-prefixed source and key, in that order |
| Identity.FrameLayout | crates/lenso-audit-log-core/src/model.rs:528-541 | the hashed bytes by position: each text in UTF-8 behind its byte count in eight bytes, the most significant first |
| Identity.StableIdText | crates/lenso-audit-log-core/src/model.rs:528-543 | the id is the fixed prefix and two lower-case hexadecimal digits for each byte of the digest |
| Identity.FrameInjective | crates/lenso-audit-log-core/src/model.rs:528-541 | the framing determines source and key |
| Identity.StableIdsAgree | crates/lenso-audit-log-core/src/model.rs:528-543 | equal stable ids mean equal source and key, or a digest collision |
| Identity.StableIsNeverFresh | crates/lenso-audit-log-postgres-plugin/src/storage.rs:149-153 | no stable id equals a fresh id |
| Identity.MigrationChecksum | crates/lenso-audit-log-postgres-plugin/src/operator.rs:612-620 | the digest is fed version, name and text with zero separators |
| Identity.ChecksumLayout | crates/lenso-audit-log-postgres-plugin/src/operator.rs:612-620 | the hashed bytes by position: the version in eight bytes, a zero, the name, a zero, the text |
| Identity.ChecksumInputInjective | crates/lenso-audit-log-postgres-plugin/src/operator.rs:612-620 | that input determines version, name and text when names hold no NUL |
| Utf8.EncodeInjective | crates/lenso-audit-log-core/src/model.rs:528-541 | UTF-8 encoding is injective |
| JsonText.TextRoundTrip | crates/lenso-audit-log-postgres-plugin/src/repository.rs:384-386 | the compact text of a value parses to it exactly when its nesting is within the decoder's limit |
| JsonText.TextInjective | crates/lenso-audit-log-postgres-plugin/src/repository.rs:384-386 | different values have different texts |
| Compact.CompactText | crates/lenso-audit-log-core/src/model.rs:612-651 | the compact text whose bytes are limited reads as its value, and no text that reads as the value takes fewer bytes |
| Compact.TextIsShortest | crates/lenso-audit-log-postgres-plugin/src/repository.rs:384-386 | writing back what was read never takes more bytes than the text, whatever its layout, escapes and repeated keys |
| Envelope.RecoverStored | crates/lenso-capability-audit-log/src/lib.rs:16-32 | recovery returns what was enveloped and nothing for what passed through, for every value that could be decoded in the first place |
| Envelope.RecoverProjected | crates/lenso-capability-audit-log/src/lib.rs:16-32 | beyond those values: recovery succeeds exactly for values that are portable or nest at most 127 deep |
| Envelope.RecoverExactly | crates/lenso-capability-audit-log/src/lib.rs:16-32 | a value is recovered if and only if the single key is one of the two literal ones and holds it, the second as a text that decodes to it; an error if and only if that text does not decode |
| Envelope.ProjectedIsPortable | crates/lenso-audit-log-postgres-plugin/src/repository.rs:371-393 | the projected map is portable, whatever was stored |
| Envelope.ProjectInjective | crates/lenso-audit-log-postgres-plugin/src/repository.rs:371-393 | distinct stored values stay distinct |
| Envelope.ProjectIsIdentity | crates/lenso-audit-log-postgres-plugin/src/repository.rs:373-379 | portable metadata reads back as written exactly when it uses no reserved key |
| PgStore.ProjectedExactly | crates/lenso-audit-log-postgres-plugin/src/repository.rs:371-393 | which of the three forms a stored value is read in, by its numbers and two literal reserved keys, and that the result is portable at every path |
| Sql.ClauseMeaning | crates/lenso-audit-log-postgres-plugin/src/repository.rs:225-335 | the text of any list of conditions is well formed, parses, and under three-valued logic selects exactly the rows on which all conditions hold |
| Sql.ClauseAppend | crates/lenso-audit-log-postgres-plugin/src/repository.rs:328-335 | appending one condition after `where` or `and` gives the clause of the longer list |
| Conditions.TextsAreDistinct | crates/lenso-audit-log-core/src/model.rs:61-78 | outcomes and severities are stored under different texts |
| Conditions.TextsParseBack | crates/lenso-audit-log-core/src/model.rs:61-126 | a stored text parses to an outcome or severity exactly when it is the text of that value |
| Conditions.PassesIsMatch | crates/lenso-audit-log-core/src/model.rs:363-377 | the column tests together are the field part of the filter |
| Conditions.FieldCondsMeaning | crates/lenso-audit-log-core/src/model.rs:363-377 | the compiled field conditions hold on a row exactly when the filter's fields match, NULL columns included |
| PgQuery.PushWhere | crates/lenso-audit-log-postgres-plugin/src/repository.rs:328-335 | `where` the first time and `and` after that |
| PgQuery.PushTextFilter | crates/lenso-audit-log-postgres-plugin/src/repository.rs:316-326 | an absent value adds nothing, a present one its comparison and its bind |
| PgQuery.PushCursor | crates/lenso-audit-log-postgres-plugin/src/repository.rs:304-313 | the key comparison with its three binds in order |
| PgQuery.PushEventFilters | crates/lenso-audit-log-postgres-plugin/src/repository.rs:225-314 | the builder holds the clause of the filter with its instants as the driver rounds them, well formed, with placeholders and binds in step |
| PgQuery.PgSelectsMatches | crates/lenso-audit-log-postgres-plugin/src/repository.rs:225-335 | the clause of a filter selects a row exactly when that filter, with the instants that reach the database, matches it |
| PgQuery.PgSelectsExactly | crates/lenso-audit-log-postgres-plugin/src/repository.rs:225-335 | over stored rows the clause selects what the filter asked for matches exactly when rounding leaves its span the same |
| PgQuery.PgSelectsExactlyTruncated | crates/lenso-audit-log-postgres-plugin/src/repository.rs:225-335 | for a driver that truncates, exactly under the condition of Rounding.TruncationIsExact |
| PgQuery.HalfAMicrosecond | crates/lenso-audit-log-postgres-plugin/src/repository.rs:289-293 | a row that the clause selects and the filter does not match |
| PgQuery.PgListsAsReference | crates/lenso-audit-log-postgres-plugin/src/repository.rs:201-212 | the query returns the reference listing for the filter that reaches the database |
| PgQuery.ListsSame | crates/lenso-audit-log-postgres-plugin/src/repository.rs:201-212 | and for the filter asked for when rounding leaves its span the same |
| PgStore.Repository.Insert | crates/lenso-audit-log-postgres-plugin/src/repository.rs:69-148 | insert on conflict do nothing: the log after it and the row it returns |
| PgStore.Repository.GetEvent | crates/lenso-audit-log-postgres-plugin/src/repository.rs:214-223 | the row with this id read through the envelope, and none exactly when no row has it |
| PgStore.Repository.AppendEvent | crates/lenso-audit-log-postgres-plugin/src/repository.rs:150-199 | both statements: truncated intent stored or found, and the comparison that decides between replay and conflict |
| PgStore.Repository.ListEvents | crates/lenso-audit-log-postgres-plugin/src/repository.rs:201-212 | the reference listing of the rows as read for the filter with rounded bounds, and for the filter itself when rounding leaves its span the same |
| PgStore.ListCommutesWithRead | crates/lenso-audit-log-postgres-plugin/src/repository.rs:201-212 | listing the rows as read is reading the listed rows |
| PgStore.AloneAsRepository | crates/lenso-audit-log-postgres-plugin/src/repository.rs:150-199 | a client whose two statements run back to back is told what Repository.AppendEvent says |
| PgStore.RunKeepsInv | crates/lenso-audit-log-postgres-plugin/src/repository.rs:150-199 | every interleaving keeps ids unique, rows unchanged, and each client consistent with the stored row |
| PgStore.RowsComeFrom | crates/lenso-audit-log-postgres-plugin/src/repository.rs:150-199 | every row after a run was there before or holds the truncated intent of a client |
| PgStore.ConcurrentAppends | crates/lenso-audit-log-postgres-plugin/src/repository.rs:150-199 | over every interleaving each id is stored at most once, rows never change and come from a client otherwise, the select after a conflict finds a row, and all successes for one id return the same event |
| PgStore.ConcurrentOutcome | crates/lenso-audit-log-postgres-plugin/src/repository.rs:150-199 | when the rows at the start and the intents under the id use no reserved key, a client succeeds exactly when its truncated intent is the stored one |
| PgStore.SameToTheMicrosecond | crates/lenso-audit-log-postgres-plugin/src/repository.rs:154-157 | truncated intents are equal exactly when all fields agree and the times count the same microseconds |
| PgStore.PgPageIsListed | crates/lenso-audit-log-postgres-plugin/src/repository.rs:201-212 | the page made from what the query returns is the reference page for the rounded filter |
| PgStore.PgPagesAreRounded | crates/lenso-audit-log-postgres-plugin/src/repository.rs:201-212 | so are all pages that follow, as cursors are whole microseconds |
| PgStore.PagingDuringAppends | crates/lenso-audit-log-core/src/lib.rs:165-192 | paging by the PostgreSQL query while appends interleave: strictly descending, nothing twice, complete at the end for the rounded filter, and for the filter itself when rounding leaves its span the same |
| PgStore.ReplayMeetsRow | crates/lenso-audit-log-postgres-plugin/src/repository.rs:340 | a replay is recognised exactly when the stored metadata uses no reserved key; otherwise the enveloped intent is accepted in its place |
| PgStore.ReservedReplayIsRefused | crates/lenso-audit-log-postgres-plugin/src/repository.rs:340 | every accepted request with a reserved metadata key is refused when it is sent again |
| PgStore.ReservedRequestIsRefused | crates/lenso-audit-log-postgres-plugin/src/repository.rs:340 | a concrete accepted request of that kind |
| PgStore.AcceptedRowIsProjectable | crates/lenso-audit-log-core/src/model.rs:460-517 | the transfer of Events.AcceptedIsProjectable to rows read from PostgreSQL |
| D1Query.BuildQuery | crates/lenso-audit-log-d1-plugin/src/host_facilities/store.mjs:38-46 | text and values of the query: numbering its anonymous placeholders gives the clause of the conditions over keys |
| D1Query.FieldConditions | crates/lenso-audit-log-d1-plugin/src/host_facilities/store.mjs:40 | the loop over the columns collects one condition and one value for each field that is set |
| D1Query.TimeConditions | crates/lenso-audit-log-d1-plugin/src/host_facilities/store.mjs:41-43 | the three conditions on the key, the cursor with its three values in order |
| D1Query.NumberJoined | crates/lenso-audit-log-d1-plugin/src/host_facilities/store.mjs:45 | numbering the joined conditions from left to right gives the numbered conjunction |
| D1Query.D1SelectsByKey | crates/lenso-audit-log-d1-plugin/src/host_facilities/store.mjs:40-45 | the clause selects exactly the rows that match by key, for every filter |
| D1Query.D1ListsByKey | crates/lenso-audit-log-d1-plugin/src/host_facilities/store.mjs:38-48 | the query returns the matching rows in descending key order, one more than the limit |
| D1Query.KeyMatchesAsReference | crates/lenso-audit-log-d1-plugin/src/host_facilities.rs:134-147 | matching by key is matching by time on either side of the beginning of year 10000 |
| D1Query.KeyMatchesExactly | crates/lenso-audit-log-d1-plugin/src/host_facilities.rs:134-147 | for every filter and row, exactly when matching by key is matching by time |
| D1Query.D1ListsAsReference | crates/lenso-audit-log-d1-plugin/src/host_facilities.rs:134-155 | the D1 listing is the reference listing when the filter and the rows with its fields lie on one side of year 10000 |
| D1Query.D1ListsExactly | crates/lenso-audit-log-d1-plugin/src/host_facilities.rs:134-155 | for filters without bounds and every limit: exactly when all or none of the rows with its fields lie in year 10000 |
| D1Query.D1ListingExactly | crates/lenso-audit-log-d1-plugin/src/host_facilities.rs:134-155 | for every filter before the limit: exactly when keys agree with times on every row and the selected rows lie on one side |
| D1Query.YearTenThousandIsMisplaced | crates/lenso-audit-log-d1-plugin/src/host_facilities.rs:152-155 | a table sorted by key is sorted by time exactly when all or none of its rows lie in year 10000 |
| D1Store.HonestReceiptIsRead | crates/lenso-audit-log-d1-plugin/src/host_facilities/store.mjs:1 | the receipt of a batch that succeeded is accepted and yields its row |
| D1Store.ReceiptExactly | crates/lenso-audit-log-d1-plugin/src/host_facilities/store.mjs:1 | a receipt proves a row if and only if there are two successful replies with results, the first changed no row or one, and the second begins with the row |
| D1Store.Database.RunBatch | crates/lenso-audit-log-d1-plugin/src/host_facilities/store.mjs:27-36 | the batch is one atomic append, and its receipt proves the stored row |
| D1Store.Database.AppendEvent | crates/lenso-audit-log-d1-plugin/src/host_facilities.rs:106-116 | log and answer of an attempt whose reply may be lost or damaged after commit |
| D1Store.Database.GetEvent | crates/lenso-audit-log-d1-plugin/src/host_facilities/store.mjs:37 | unavailable without a reply; otherwise the event stored under the id, and none exactly when no row has it |
| D1Store.Database.ListEvents | crates/lenso-audit-log-d1-plugin/src/host_facilities/store.mjs:38-49 | limit check, then the listing by key, which is the reference listing when the filter and the rows it asks for lie on one side of year 10000 |
| D1Paging.KeyTimeOrder | crates/lenso-audit-log-d1-plugin/src/host_facilities.rs:152-155 | keys compare as times do once year 10000 is moved in front |
| D1Paging.KeyListByTime | crates/lenso-audit-log-d1-plugin/src/host_facilities/store.mjs:38-48 | the D1 listing is the reference listing of those times, for every filter and table |
| D1Paging.GrowingKeyPages | crates/lenso-audit-log-d1-plugin/src/host_facilities/store.mjs:38-48 | pages made from the D1 query over growing tables: strictly descending by key and id, nothing twice, sound and in the end complete for matching by key, year 10000 included |
| D1Paging.CursorStaysOnSide | crates/lenso-audit-log-core/src/lib.rs:176-183 | paging over D1 never changes sides of year 10000 |
| D1Paging.KeyPagesAreReference | crates/lenso-audit-log-d1-plugin/src/host_facilities/store.mjs:38-48 | on one side of year 10000 the D1 pages are the reference pages |
| D1Store.RunIsReference | crates/lenso-audit-log-d1-plugin/src/host_facilities/store.mjs:27-36 | over every run the log is that of the reference store given the batches that ran |
| D1Store.RowAfterRun | crates/lenso-audit-log-d1-plugin/src/host_facilities/store.mjs:27-36 | the row under an id is the one that was there, and otherwise the first that the run offers |
| D1Store.AnswersNameTheRow | crates/lenso-audit-log-d1-plugin/src/host_facilities.rs:106-116 | every answer in a run is unavailable without a valid reply, and otherwise the one row stored under the id or a conflict |
| D1Store.TableAfterRun | crates/lenso-audit-log-d1-plugin/src/host_facilities/store.mjs:27-36 | the table after a run is valid, only grows, and holds the log of the run |
| D1Store.PagingDuringAttempts | crates/lenso-audit-log-d1-plugin/src/host_facilities/store.mjs:38-48 | paging by the D1 query while attempts run: D1Paging.GrowingKeyPages for the tables of the run, whatever becomes of the replies |
| D1Store.PagingDuringAttemptsAsReference | crates/lenso-audit-log-d1-plugin/src/host_facilities/store.mjs:38-48 | and these are reference pages, complete for the filter itself, when the filter, the rows at the start and the attempts lie on one side of year 10000 |
| D1Store.RetriesLeaveOneRow | crates/lenso-audit-log-d1-plugin/src/host_facilities/store.mjs:27-36 | any number of retries of one event leaves exactly one row if any batch ran and none otherwise |
| NormalizeSql.Normalize | crates/lenso-audit-log-postgres-plugin/src/operator.rs:1301-1325 | the look-ahead scanner keeps exactly the quotes, the characters after an odd number of quotes, and those that are not white space, parenthesis or double quote |
| NormalizeSql.NormalIsKept | crates/lenso-audit-log-postgres-plugin/src/operator.rs:1301-1325 | the filter by counting quotes is the filter by a state carried from the front |
| NormalizeSql.StaysExactly | crates/lenso-audit-log-postgres-plugin/src/operator.rs:1301-1325 | a character is kept if and only if an odd number of quotes precede it or its code is none of the eight skipped ones |
| NormalizeSql.NormalizeIdempotent | crates/lenso-audit-log-postgres-plugin/src/operator.rs:1301-1325 | normalising twice is normalising once |
| NormalizeSql.NormalizeDistributes | crates/lenso-audit-log-postgres-plugin/src/operator.rs:1301-1325 | it distributes over a cut exactly when an even number of quotes precede the cut or no character after it has one of the eight skipped codes |
| NormalizeSql.LayoutDoesNotMatter | crates/lenso-audit-log-postgres-plugin/src/operator.rs:1301-1325 | any run of characters with the eight skipped codes, put in outside literals, has no effect |
| Adoption.VerdictByCatalog | crates/lenso-audit-log-postgres-plugin/src/operator.rs:82-125 | read off the catalog: adopted if and only if every condition in a list of literal facts holds, and refused for a reason if and only if the first condition that fails has it |
| Adoption.RefusalIsTheFirst | crates/lenso-audit-log-postgres-plugin/src/operator.rs:82-125 | a refusal is the one reported by the first check that fails |
| Adoption.AdoptedIsManaged | crates/lenso-audit-log-postgres-plugin/src/operator.rs:324-344 | an adopted schema is refused as already managed |
| Adoption.Session.VerifyAndLockLegacyLedger | crates/lenso-audit-log-postgres-plugin/src/operator.rs:346-405 | ledger checks and its share lock, in order |
| Adoption.Session.VerifyAndLockAuditSchema | crates/lenso-audit-log-postgres-plugin/src/operator.rs:425-486 | inventory, exclusive lock and table checks, in order |
| Adoption.Session.RefuseExposedOrManaged | crates/lenso-audit-log-postgres-plugin/src/operator.rs:91-101 | publications of both schemas and the managed ledger, before the locks and again after them |
| Adoption.Session.VerifyAll | crates/lenso-audit-log-postgres-plugin/src/operator.rs:82-120 | all checks in order, the first failure deciding the refusal |
| Adoption.Session.Install | crates/lenso-audit-log-postgres-plugin/src/operator.rs:577-610 | ledger created, checked and filled with the one current row, then committed |
| Adoption.Session.AdoptLegacy | crates/lenso-audit-log-postgres-plugin/src/operator.rs:62-133 | adopted if and only if the listed conditions hold, otherwise the reason of the first that fails; the new ledger with its literal name, key and row is all that changes, a refusal changes nothing, and the locks are released |
| Adoption.PassedStays | crates/lenso-audit-log-postgres-plugin/src/operator.rs:82-120 | what an adopter has checked stays true under whatever others can commit beside its locks |
| Adoption.RunKeepsInv | crates/lenso-audit-log-postgres-plugin/src/operator.rs:62-133 | every run keeps locks exclusive and every adopter's checked facts true |
| Adoption.AdoptionIsAtomic | crates/lenso-audit-log-postgres-plugin/src/operator.rs:62-133 | in every run an adopter ends as if its transaction had run at that moment: all listed conditions hold together at commit, one row is installed, a refusal has the reason of the first condition that fails then and changes nothing |
| Adoption.OneAdopterAtWork | crates/lenso-audit-log-postgres-plugin/src/operator.rs:251-259 | at most one adopter is past its first statement |
| Adoption.AdoptersLeaveRows | crates/lenso-audit-log-postgres-plugin/src/operator.rs:62-133 | no operation of an adopter changes event rows or legacy ledger rows |
| Adoption.EventRowsAreFrozen | crates/lenso-audit-log-postgres-plugin/src/operator.rs:448-451 | from the exclusive lock to the end nobody changes event rows |
| Adoption.AdoptsOnce | crates/lenso-audit-log-postgres-plugin/src/operator.rs:62-133 | an adoption finds no managed ledger and leaves one with exactly the current row |
| Adoption.OtherStepsKeepLedger | crates/lenso-audit-log-postgres-plugin/src/operator.rs:324-344 | no adopter and no lost session touches a managed ledger |
| Adoption.AtMostOneAdoption | crates/lenso-audit-log-postgres-plugin/src/operator.rs:62-133 | if commits of others leave a managed ledger alone, at most one adopter succeeds and the ledger holds exactly the current row |
| Adoption.UncoordinatedChangeIsAdopted | crates/lenso-audit-log-postgres-plugin/src/operator.rs:52-61 | without the maintenance lock a change after the last check goes unnoticed |

## Left out

- JsonText.TextRoundTrip: numbers are the integers of 64 bits that the JSON library keeps exactly; fractions and
  exponents are not modelled.
- Envelope.RecoverProjected: objects are members with distinct keys in the order of their map; the reordering that
  `jsonb` and a sorted map do, and equality of maps up to order, are not modelled.
- Rfc3339.ParsesExactly: offsets written with the Unicode minus sign are not modelled.
- Redaction.SensitivityIgnoresSpelling: lower-casing is modelled for the characters that can yield an ASCII
  letter; others map to themselves, which no sensitive word contains.
- PgQuery.PgSelectsMatches: SQL text is modelled as tokens, and the instants in it are the rounded ones; how they
  differ from the filter asked for is the subject of PgQuery.PgSelectsExactly.
- PgQuery.PgListsAsReference: the database's collation enters as an arbitrary order of ids; a negative limit, which
  the service refuses before, is not given the error PostgreSQL would raise.
- PgStore.ConcurrentAppends: a statement is one step; locking and visibility inside a single statement, and
  database errors other than a lost client, are not modelled.
- D1Query.D1ListingExactly: for filters with bounds the exact condition is stated before the limit is applied; with a
  limit D1Query.D1ListsAsReference gives the condition that suffices.
- D1Store.Database.AppendEvent: encoding an event as JSON text in `event_json` and decoding it is taken to be
  exact, and a reply that is well formed is taken to be true.
- Service.AuditService.AppendEvent: the service is attached to the in-memory store; the other stores are related
  to it by their refinement lemmas.
- Paging.GrowingPages: that paging ends while matching events below the cursor keep being appended is not
  promised, and not stated.
- Adoption.Session.Verify: each catalog query is an abstract fact about the catalog; the columns and fingerprints
  it compares are data.
- Adoption.AdoptionIsAtomic: waiting for a lock is a step that changes nothing; deadlock and progress are not
  modelled.
- Identity.StableEventId: SHA-256 is a parameter (any function to 32 bytes).
- Caller and scope name checks of the policy are a predicate without theorems of its own.
- D1 schema setup and readiness, plugin lifecycle, secrets, pools, bindings to WebAssembly, generated request
  types and the agent tools adapter are not modelled.
- The names of fields reported with a projection failure are not modelled.
