# Log ingestion service: validator, filter engine and log store

This project models the core of the log ingestion service in
`backend/server.js` and proves properties about it. The service accepts
structured log entries over `POST /logs` and stores them in a JSON file. It
answers `GET /logs` with the stored entries that satisfy a set of query
filters, most recent first. The model has four parts:

- **Validation** (`validation.dfy`, `timestamp.dfy`). `validateLogEntry` runs
  its checks in a fixed order and reports the first failure:
  - all eight required properties are present;
  - the level is one of four;
  - the timestamp matches the pattern
    `^\d{4}-\d{2}-\d{2}T\d{2}:\d{2}:\d{2}(\.\d{3})?Z?$`;
  - the metadata is a plain object.

  The pattern is matched character by character. It is proved equal to a
  positional description: length 19, 20, 23 or 24, with fixed digit and
  separator slots. The test converts the value to a string first, as
  JavaScript does (`json.dfy`, `StringForm`). So a one-element array holding a
  valid timestamp passes, while numbers, booleans, null, objects and longer
  arrays fail.
- **Filtering** (`log_filter.dfy`, `dates.dfy`). `filterLogs` is a chain of
  early returns in source order. It is proved equal to a conjunction of
  optional predicates:
  - exact match on level, resourceId, traceId, spanId and commit;
  - a case-insensitive substring match on the message;
  - inclusive time bounds.

  A filter whose value is absent or empty imposes nothing. Under an active
  message filter, an entry whose message is not a string makes the callback
  throw. The route then answers 500, which the model returns as an error.
- **Ordering** (`time_order.dfy`). The comparator is
  `new Date(b.timestamp) - new Date(a.timestamp)`. The in-place sort is a
  stable insertion sort over an array, proved to compute the function
  `TimeSorted`. `TimeSorted` is proved to be:
  - a permutation;
  - stable for every time value;
  - newest first whenever every timestamp is a valid date;
  - the only stable newest-first arrangement of the input.
- **The store** (`server.dfy`). `LogStore` holds the log file's entries as a
  sequence.
  - `Ingest` validates, then reads, appends and writes.
  - `Query` reads the entries, builds the filter object by deleting unset
    parameters, filters a copy of them into an array, and sorts it.
  - Whether each read or write of the file succeeds is a parameter.

Date parsing is also a parameter: a `DateParser` maps a string to a time value
in milliseconds, or to none for an invalid date (NaN). What `new Date`
performs before parsing is modelled: ToString of arrays and objects, numbers
as time values within ±8.64e15, null as 0 and booleans as 0 or 1.

Three behaviours of the code worth knowing:

- An entry or a bound whose date is invalid is kept by the range filters,
  because `<` and `>` are false on NaN.
- `readLogs` answers `[]` on every read error.
  - A query after a failed read therefore succeeds with no entries.
  - An ingest after a failed read rewrites the file with the new entry alone.
- The validator checks only the presence of message, resourceId, traceId,
  spanId and commit, not their type. An entry with a non-string message is
  stored, and every later message search that reaches it fails with 500.

## Model

| member | source | states |
|---|---|---|
| Validation.FirstMissing | backend/server.js:49-57 | none exactly when every listed field is present; otherwise the first absent field in list order |
| Validation.Validate | backend/server.js:48-76 | valid exactly when all four checks pass; a missing-field error exactly when some field is absent, naming the first absent one; the level, timestamp and metadata errors each exactly when their check is the first to fail |
| Validation.ValidateLogEntry | backend/server.js:48-76 | the loop with early return over the required fields gives the verdict of `Validate` |
| Validation.ReportsFirstMissing | backend/server.js:49-57 | when field i is the first absent in the order level, message, resourceId, timestamp, traceId, spanId, commit, metadata, that field is reported whatever else is wrong |
| Validation.FirstMissingReadsKeysOnly | backend/server.js:53-57 | bodies with the same property names have the same first missing field |
| Validation.PresenceIsKeyExistence | backend/server.js:53-57 | replacing the value of a present free-text property (the empty string included) never changes the verdict |
| Validation.NumeralIsNotTimestamp | backend/server.js:65-68 | no number passes the timestamp test |
| Validation.JoinedIsNotTimestamp | backend/server.js:65-68 | no comma-joined array of two or more elements passes the timestamp test |
| Validation.TimestampValues | backend/server.js:65-68 | a value passes the timestamp test exactly when it is a string of the pattern or a one-element array whose element passes |
| Validation.RejectsNonObjectMetadata | backend/server.js:71-73 | arrays, null, strings and numbers as metadata give the metadata error once the earlier checks pass |
| Timestamp.MatchedHasShape | backend/server.js:65 | every string the left-to-right matcher accepts has the positional shape |
| Timestamp.ShapeIsMatched | backend/server.js:65 | every string of the positional shape is accepted |
| Timestamp.PatternIsShape | backend/server.js:65 | the matcher accepts exactly the strings of length 19, 20, 23 or 24 with digits, `-`, `T`, `:`, `.` and `Z` in their fixed slots |
| Timestamp.ShapeFacts | backend/server.js:65 | an accepted string holds no comma and has `T` at index 10 |
| Timestamp.AcceptsUtcForm | backend/server.js:65-68 | seconds precision with a trailing `Z` is accepted |
| Timestamp.AcceptsMillisForm | backend/server.js:65-68 | milliseconds without a zone designator are accepted |
| Timestamp.AcceptsOutOfRangeFields | backend/server.js:65-68 | month 13, day 40 and hour 99 are accepted: only the shape is checked |
| Timestamp.RejectsBareDate | backend/server.js:65-68 | a date without a time is rejected |
| Timestamp.RejectsFreeText | backend/server.js:65-68 | free text is rejected |
| Timestamp.RejectsZoneOffset | backend/server.js:65-68 | a `+02:00` offset is rejected |
| Timestamp.RejectsShortMillis | backend/server.js:65-68 | two-digit milliseconds are rejected |
| Dates.DateOf | backend/server.js:98-107 | a string is parsed; a number is a valid time value exactly within ±8.64e15; every object is dated as the text "[object Object]"; an empty array and `[null]` are dated as the empty text; a one-element array is dated as its string element, or as the decimal text of its number element rather than as that number |
| LogFilter.CheckIsConjunction | backend/server.js:80-128 | the early-return callback throws exactly when the level passes and the message filter meets a non-string message; otherwise it keeps exactly the entries satisfying every supplied filter |
| LogFilter.FilterFailsIffSomeThrows | backend/server.js:79-130 | the filter fails exactly when some entry makes the callback throw |
| LogFilter.FilterKeepsExactlyMatches | backend/server.js:79-130 | the result is an order-preserving subsequence of the input; every kept entry matches; every matching entry is kept as often as it occurs; no other entry appears |
| LogFilter.UnfilteredIsIdentity | backend/server.js:79-130 | with no filter supplied, or only empty ones, the input is returned unchanged |
| LogFilter.FilterReadsParamsOnly | backend/server.js:82-126 | only the eight filter values, with absent read as empty, decide the result |
| LogFilter.CheckReadsParamsOnly | backend/server.js:82-126 | the callback's verdict on one entry depends on the eight filter values only |
| LogFilter.BuildFilters | backend/server.js:180-196 | after the unset parameters are deleted, the filter object binds exactly those of the eight names the query supplies, each to its query value |
| LogFilter.BuiltFiltersAgree | backend/server.js:180-199 | filtering with the built object equals filtering with the raw query |
| LogFilter.BoundsAreInclusive | backend/server.js:97-111 | an entry whose time equals a bound passes that bound |
| LogFilter.WithinBounds | backend/server.js:97-111 | with valid dates throughout, an entry passes both bounds exactly when its time lies from start to end inclusive |
| LogFilter.InvalidDatesAreKept | backend/server.js:97-111 | an entry with an invalid date, or bounds that are both invalid dates, passes the range filters |
| LogFilter.MessageIgnoresCase | backend/server.js:87 | the search "timeout" finds the message "Connection Timeout" |
| TimeOrder.TimeSortedIsPermutation | backend/server.js:202 | the sorted result holds exactly the input entries with their multiplicities |
| TimeOrder.TimeSortedIsSettled | backend/server.js:202 | no entry of the result is strictly more recent than the one before it |
| TimeOrder.InsertIsStable | backend/server.js:202 | one insertion step keeps the relative order of the entries with any one time value |
| TimeOrder.TimeSortedIsStable | backend/server.js:202 | the entries with any one time value, valid or invalid, keep their input order |
| TimeOrder.TimeSortedIsNewestFirst | backend/server.js:202 | when every timestamp is a valid date, the result is in non-increasing time order |
| TimeOrder.StableSortIsUnique | backend/server.js:202 | when every timestamp is a valid date, any permutation that is newest first and keeps ties in input order equals the sorted result |
| TimeOrder.SettledIsFixed | backend/server.js:202 | an already settled sequence is left unchanged |
| TimeOrder.TimeSortedIdempotent | backend/server.js:202 | sorting the result again changes nothing |
| TimeOrder.OldestFirstIsReversed | backend/server.js:202 | entries in strictly increasing time order come back exactly reversed |
| TimeOrder.InsertInto | backend/server.js:202 | one pass of the in-place sort turns the array prefix into the insertion of the next entry, leaving the rest as it was |
| TimeOrder.SortByTime | backend/server.js:202 | the in-place sort leaves the array holding `TimeSorted` of its old contents |
| Server.LogStore.constructor | backend/server.js:19-23 | an existing log file is kept; a missing one starts empty |
| Server.LogStore.Ingest | backend/server.js:135-164 | an invalid body is answered with its validation error and the store is unchanged; a valid one whose write fails is answered as a failed save and the store is unchanged; otherwise the entry is returned unchanged and the store becomes the entries read followed by the entry; a store of valid entries stays one |
| Server.LogStore.Query | backend/server.js:175-204 | the answer for the entries read: an error exactly when some entry throws; with no entries when the read fails; otherwise only matching entries, every matching entry read, no entry strictly more recent than the one before it, and newest first when every timestamp read is a valid date |
| Server.QueryAnswersExactly | backend/server.js:199-202 | a successful answer holds only matching entries and every matching entry read, no entry strictly more recent than the one before it, and is in non-increasing time order when every timestamp read is a valid date |
| Server.RepeatedQueriesAgree | backend/server.js:199-202 | two queries with nothing ingested between them give identical answers |
| Server.IngestedEntryIsListed | backend/server.js:148-164 | an appended entry is listed by a later unfiltered query |
| Server.OldestFirstLogIsReversed | backend/server.js:199-202 | with no filters, entries logged in strictly increasing time order are returned exactly reversed |
| Server.LevelAndResourceFilter | backend/server.js:82-94 | the query for level "error" on resource "server-1" succeeds and returns only entries with both |
| Server.ValidEntryTime | backend/server.js:98 | a stored entry's time is the parse of its validated timestamp text |
| Server.NonStringMessageBreaksSearch | backend/server.js:87 | a valid entry whose message is replaced by a non-string stays valid, and a message search that reaches it fails |

## Left out

- Express setup, the middleware (helmet, cors, morgan, the JSON body parser), the 404 and error handlers, `/health` and `app.listen` are transport plumbing and are not modelled.
- The request body is modelled as a JSON object. A top-level JSON array body, which the body parser also accepts, is not modelled.
- File I/O (`fs.existsSync`, `readFileSync`, `writeFileSync`) and `JSON.parse`/`JSON.stringify` are not modelled. The file is the store's entry sequence, and whether a read or write succeeds is a parameter.
- Server.LogStore.Ingest: a failed write is modelled as leaving the file as it was. `writeFileSync` may leave it truncated.
- Server.LogStore.Query: the route's outer `catch` for faults other than the message TypeError is not modelled.
- Dates.DateOf: which strings parse as dates, and the local time zone applied to forms without `Z`, belong to the JavaScript engine. They form the `DateParser` parameter.
- JSON numbers are integers. Fractional numbers are not modelled, nor the exponent form JavaScript prints for magnitudes of 1e21 and above; no such string matches the timestamp pattern either.
- LogFilter.MessageIgnoresCase: case folding is ASCII only. Unicode `toLowerCase` is not modelled.
- TimeOrder.SortByTime: the engine's sort algorithm is modelled as a stable insertion sort with the source's comparator, which reads a NaN difference as "equal". For valid dates every stable sort agrees with it (`TimeOrder.StableSortIsUnique`). Invalid dates make the comparator inconsistent, and orders that other algorithms then produce are not modelled.
- Own properties named `hasOwnProperty` or `toString` that shadow the built-in methods are not modelled.
- Query parameters that the query-string parser turns into arrays or objects (repeated or bracketed names) are not modelled. Filter values are strings.
- Concurrency between overlapping requests is not modelled. The server has no locking.
- The frontend (`frontend/src`) is React UI state, rendering and HTTP calls with no core logic of its own. It is not part of this model.
