/**
 * The log store behind the two routes: ingest (validate, read the file,
 * append, rewrite the file) and query (read the file, filter, sort most
 * recent first). The file's content is the store's state; whether a read or
 * a write of it succeeds is given by the caller.
 */
module Server {
  import opened Wrappers
  import opened Json
  import opened Validation
  import opened Dates
  import opened LogFilter
  import opened TimeOrder
  import Timestamp

  /** The ingest route's answers: 201 with the entry, 400 with the validation error, 500. */
  datatype IngestResponse = Created(entry: Body) | BadRequest(error: ValidationError) | SaveFailed

  /** `readLogs()`: the stored entries, or none at all when reading the file fails. */
  function ReadLogs(stored: seq<Body>, readOk: bool): seq<Body> {
    if readOk then stored else []
  }

  /** The sort key of the query route: `e => new Date(e.timestamp)`. */
  function TimeKeyOf(parse: DateParser): TimeKey<Body> {
    e => TimeOf(e, parse)
  }

  /** What the query route answers for the entries it read: filtered, then newest first. */
  function QueryResult(logs: seq<Body>, query: Filters, parse: DateParser): Result<seq<Body>, QueryError> {
    match Filter(logs, query, parse)
    case Err(x) => Err(x)
    case Ok(kept) => Ok(TimeSorted(kept, TimeKeyOf(parse)))
  }

  class LogStore {
    /** The entries in the log file, in arrival order. */
    var entries: seq<Body>

    /** Every stored entry passed validation. */
    ghost predicate OnlyValidEntries()
      reads this
    {
      forall e :: e in entries ==> Validate(e) == Valid
    }

    /** Start-up: an existing log file is kept as it is; a missing one is created empty. */
    constructor (existing: Option<seq<Body>>)
      ensures entries == if existing.Some? then existing.value else []
    {
      entries := if existing.Some? then existing.value else [];
    }

    /**
     * The ingest route: an invalid body is answered 400 before the file is
     * read or written; a valid one is appended to what was read and the file
     * is rewritten, or, if the write fails, left as it was and answered 500.
     */
    method Ingest(body: Body, readOk: bool, writeOk: bool) returns (r: IngestResponse)
      modifies this
      ensures Validate(body).Invalid? ==>
        r == BadRequest(Validate(body).error) && entries == old(entries)
      ensures Validate(body) == Valid && !writeOk ==>
        r == SaveFailed && entries == old(entries)
      ensures Validate(body) == Valid && writeOk ==>
        r == Created(body) && entries == ReadLogs(old(entries), readOk) + [body]
      ensures old(OnlyValidEntries()) ==> OnlyValidEntries()
    {
      var v := ValidateLogEntry(body);
      if v.Invalid? {
        return BadRequest(v.error);
      }
      var logs := ReadLogs(entries, readOk);
      logs := logs + [body];
      if !writeOk {
        return SaveFailed;
      }
      entries := logs;
      return Created(body);
    }

    /**
     * The query route: every entry read that satisfies all supplied filters,
     * most recent first, ties in arrival order; or the error a non-string
     * message raises under a message filter.
     */
    method Query(query: Filters, readOk: bool, parse: DateParser) returns (r: Result<seq<Body>, QueryError>)
      ensures r == QueryResult(ReadLogs(entries, readOk), query, parse)
      ensures !readOk ==> r == Ok([])
      ensures r.Err? <==> exists i :: 0 <= i < |ReadLogs(entries, readOk)| && Throws(ReadLogs(entries, readOk)[i], query)
      ensures r.Ok? ==> forall e :: e in r.value ==> Matches(e, query, parse)
      ensures r.Ok? ==> forall e :: e in ReadLogs(entries, readOk) && Matches(e, query, parse) ==> e in r.value
      ensures r.Ok? ==> Settled(r.value, TimeKeyOf(parse))
      ensures r.Ok? && AllTimed(ReadLogs(entries, readOk), TimeKeyOf(parse)) ==> NewestFirst(r.value, TimeKeyOf(parse))
    {
      var logs := ReadLogs(entries, readOk);
      var filters := BuildFilters(query);
      BuiltFiltersAgree(logs, query, parse);
      FilterFailsIffSomeThrows(logs, query, parse);
      match Filter(logs, filters, parse) {
        case Err(x) =>
          r := Err(x);
        case Ok(kept) =>
          var a := new Body[|kept|](i requires 0 <= i < |kept| => kept[i]);
          assert a[..] == kept;
          SortByTime(a, TimeKeyOf(parse));
          r := Ok(a[..]);
          QueryAnswersExactly(logs, query, parse);
      }
    }
  }

  /**
   * A successful answer holds just the matching entries read, none strictly
   * more recent than the one before it, and newest first when every
   * timestamp is a valid date.
   */
  lemma QueryAnswersExactly(logs: seq<Body>, query: Filters, parse: DateParser)
    requires QueryResult(logs, query, parse).Ok?
    ensures forall e :: e in QueryResult(logs, query, parse).value ==> Matches(e, query, parse)
    ensures forall e :: e in logs && Matches(e, query, parse) ==> e in QueryResult(logs, query, parse).value
    ensures Settled(QueryResult(logs, query, parse).value, TimeKeyOf(parse))
    ensures AllTimed(logs, TimeKeyOf(parse)) ==> NewestFirst(QueryResult(logs, query, parse).value, TimeKeyOf(parse))
  {
    var key := TimeKeyOf(parse);
    var kept := Filter(logs, query, parse).value;
    var r := TimeSorted(kept, key);
    FilterKeepsExactlyMatches(logs, query, parse);
    TimeSortedIsSettled(kept, key);
    TimeSortedIsPermutation(kept, key);
    forall e | e in r ensures Matches(e, query, parse) {
      assert e in multiset(r);
    }
    forall e | e in logs && Matches(e, query, parse) ensures e in r {
      assert e in multiset(kept);
    }
    if AllTimed(logs, key) {
      forall i | 0 <= i < |kept| ensures key(kept[i]).Some? {
        assert kept[i] in kept;
        assert multiset(logs)[kept[i]] > 0;
        var k :| 0 <= k < |logs| && logs[k] == kept[i];
      }
      TimeSortedIsNewestFirst(kept, key);
    }
  }

  /**
   * Two queries with nothing ingested between them return the same sequence.
   * This follows from the query being a function of the stored entries; what
   * the order itself is follows from `TimeSortedIsStable` and `StableSortIsUnique`.
   */
  method RepeatedQueriesAgree(store: LogStore, query: Filters, readOk: bool, parse: DateParser)
    returns (first: Result<seq<Body>, QueryError>, second: Result<seq<Body>, QueryError>)
    ensures first == second
  {
    first := store.Query(query, readOk, parse);
    second := store.Query(query, readOk, parse);
  }

  /** An appended entry is listed, unchanged, by a query without filters. */
  lemma IngestedEntryIsListed(stored: seq<Body>, body: Body, parse: DateParser)
    ensures QueryResult(stored + [body], map[], parse).Ok?
    ensures body in QueryResult(stored + [body], map[], parse).value
  {
    UnfilteredIsIdentity(stored + [body], map[], parse);
    TimeSortedIsPermutation(stored + [body], TimeKeyOf(parse));
    assert body in multiset(stored + [body]);
  }

  /**
   * With no filters, entries logged in strictly increasing time order are
   * returned in exactly the reverse order.
   */
  lemma OldestFirstLogIsReversed(logs: seq<Body>, parse: DateParser)
    requires OldestFirst(logs, TimeKeyOf(parse))
    ensures QueryResult(logs, map[], parse) == Ok(Reversed(logs))
  {
    UnfilteredIsIdentity(logs, map[], parse);
    OldestFirstIsReversed(logs, TimeKeyOf(parse));
  }

  /** The query for level "error" and resource "server-1" returns only entries with both. */
  lemma LevelAndResourceFilter(logs: seq<Body>, parse: DateParser)
    ensures QueryResult(logs, map["level" := "error", "resourceId" := "server-1"], parse).Ok?
    ensures forall e :: e in QueryResult(logs, map["level" := "error", "resourceId" := "server-1"], parse).value ==>
      FieldIs(e, "level", "error") && FieldIs(e, "resourceId", "server-1")
  {
    var f := map["level" := "error", "resourceId" := "server-1"];
    assert Param(f, "level") == "error" && Param(f, "resourceId") == "server-1";
    FilterFailsIffSomeThrows(logs, f, parse);
    FilterKeepsExactlyMatches(logs, f, parse);
    var kept := Filter(logs, f, parse).value;
    TimeSortedIsPermutation(kept, TimeKeyOf(parse));
    forall e | e in TimeSorted(kept, TimeKeyOf(parse)) ensures FieldIs(e, "level", "error") && FieldIs(e, "resourceId", "server-1") {
      assert e in multiset(kept);
      assert Matches(e, f, parse);
      assert ExactMatch(e, f, "level") && ExactMatch(e, f, "resourceId");
    }
  }

  /** A stored entry's time is the parse of its validated timestamp text. */
  lemma ValidEntryTime(e: Body, parse: DateParser)
    requires Validate(e) == Valid
    ensures TimeOf(e, parse) == parse(StringForm(e["timestamp"]))
  {
    TimestampValues(e["timestamp"]);
  }

  /**
   * The validator does not look at the message's type, so a valid entry
   * with a non-string message (a number, say) is stored; afterwards every
   * message search that reaches it fails.
   */
  lemma NonStringMessageBreaksSearch(body: Body, x: Json, f: Filters, parse: DateParser)
    requires Validate(body) == Valid && !x.JStr?
    requires Active(f, "message") && !Active(f, "level")
    ensures Validate(body["message" := x]) == Valid
    ensures QueryResult([body["message" := x]], f, parse).Err?
  {
    PresenceIsKeyExistence(body, "message", x);
    FilterFailsIffSomeThrows([body["message" := x]], f, parse);
    assert Throws([body["message" := x]][0], f);
  }
}
