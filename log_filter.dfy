/**
 * The query engine's filter: a conjunction of optional predicates over the
 * stored entries, applied in insertion order. A filter whose value is absent
 * or empty is not applied.
 */
module LogFilter {
  import opened Wrappers
  import opened Json
  import opened Dates

  /** Filter values by name, as they arrive in the query string. */
  type Filters = map<string, string>

  /** The query parameters the query engine looks at. */
  const FilterNames: seq<string> :=
    ["level", "message", "resourceId", "timestamp_start", "timestamp_end", "traceId", "spanId", "commit"]

  /** The value of a filter; an absent one reads as "", which is just as falsy. */
  function Param(f: Filters, name: string): string {
    if name in f then f[name] else ""
  }

  /** A filter takes part only when its value is truthy. */
  predicate Active(f: Filters, name: string) {
    Param(f, name) != ""
  }

  /** `log[name] === value` for a string `value`. */
  predicate FieldIs(e: Body, name: string, value: string) {
    name in e && e[name] == JStr(value)
  }

  /** ASCII case folding. */
  function LowerChar(c: char): char {
    if 'A' <= c <= 'Z' then (c as int + 32) as char else c
  }

  function Lower(s: string): string {
    seq(|s|, i requires 0 <= i < |s| => LowerChar(s[i]))
  }

  /** `part` occurs in `text` starting at index `i`. */
  predicate OccursAt(text: string, part: string, i: int) {
    0 <= i <= |text| - |part| && text[i..i + |part|] == part
  }

  /** `text.includes(part)` */
  predicate Contains(text: string, part: string) {
    exists i | 0 <= i <= |text| - |part| :: OccursAt(text, part, i)
  }

  /** JavaScript `a < b` on time values: false when either is an invalid date. */
  predicate Precedes(a: Option<int>, b: Option<int>) {
    a.Some? && b.Some? && a.value < b.value
  }

  /** `toLowerCase` exists only on strings; on any other message it throws. */
  predicate HasTextMessage(e: Body) {
    "message" in e && e["message"].JStr?
  }

  /** What the filter callback does with one entry. */
  datatype Verdict = Keep | Drop | Throw

  /** The filter callback, its checks in the order the server makes them. */
  function Check(e: Body, f: Filters, parse: DateParser): Verdict {
    if Active(f, "level") && !FieldIs(e, "level", Param(f, "level")) then Drop
    else if Active(f, "message") && !HasTextMessage(e) then Throw
    else if Active(f, "message") && !Contains(Lower(e["message"].s), Lower(Param(f, "message"))) then Drop
    else if Active(f, "resourceId") && !FieldIs(e, "resourceId", Param(f, "resourceId")) then Drop
    else if Active(f, "timestamp_start") && Precedes(TimeOf(e, parse), parse(Param(f, "timestamp_start"))) then Drop
    else if Active(f, "timestamp_end") && Precedes(parse(Param(f, "timestamp_end")), TimeOf(e, parse)) then Drop
    else if Active(f, "traceId") && !FieldIs(e, "traceId", Param(f, "traceId")) then Drop
    else if Active(f, "spanId") && !FieldIs(e, "spanId", Param(f, "spanId")) then Drop
    else if Active(f, "commit") && !FieldIs(e, "commit", Param(f, "commit")) then Drop
    else Keep
  }

  // The predicates one by one, as a conjunction independent of check order.

  predicate ExactMatch(e: Body, f: Filters, name: string) {
    Active(f, name) ==> FieldIs(e, name, Param(f, name))
  }

  predicate MessageMatches(e: Body, f: Filters) {
    Active(f, "message") ==>
      HasTextMessage(e) && Contains(Lower(e["message"].s), Lower(Param(f, "message")))
  }

  /** Inclusive lower bound; an invalid date on either side keeps the entry. */
  predicate NotBeforeStart(e: Body, f: Filters, parse: DateParser) {
    Active(f, "timestamp_start") ==> !Precedes(TimeOf(e, parse), parse(Param(f, "timestamp_start")))
  }

  /** Inclusive upper bound; an invalid date on either side keeps the entry. */
  predicate NotAfterEnd(e: Body, f: Filters, parse: DateParser) {
    Active(f, "timestamp_end") ==> !Precedes(parse(Param(f, "timestamp_end")), TimeOf(e, parse))
  }

  /** The entry satisfies every supplied, non-empty filter. */
  predicate Matches(e: Body, f: Filters, parse: DateParser) {
    && ExactMatch(e, f, "level")
    && MessageMatches(e, f)
    && ExactMatch(e, f, "resourceId")
    && NotBeforeStart(e, f, parse)
    && NotAfterEnd(e, f, parse)
    && ExactMatch(e, f, "traceId")
    && ExactMatch(e, f, "spanId")
    && ExactMatch(e, f, "commit")
  }

  /** The callback throws: the level filter lets the entry through and its message is not a string. */
  predicate Throws(e: Body, f: Filters) {
    ExactMatch(e, f, "level") && Active(f, "message") && !HasTextMessage(e)
  }

  /** The early-return chain decides exactly as the conjunction does. */
  lemma CheckIsConjunction(e: Body, f: Filters, parse: DateParser)
    ensures Check(e, f, parse) == if Throws(e, f) then Throw else if Matches(e, f, parse) then Keep else Drop
  {
  }

  /** A TypeError thrown by the callback; the server answers 500. */
  datatype QueryError = MessageNotString

  /** `logs.filter(callback)`: the kept entries in their original order, or the first throw. */
  function Filter(logs: seq<Body>, f: Filters, parse: DateParser): Result<seq<Body>, QueryError> {
    if logs == [] then Ok([])
    else
      match Check(logs[0], f, parse)
      case Throw => Err(MessageNotString)
      case Drop => Filter(logs[1..], f, parse)
      case Keep =>
        match Filter(logs[1..], f, parse)
        case Ok(rest) => Ok([logs[0]] + rest)
        case Err(x) => Err(x)
  }

  /** `a` is `b` with some elements left out and the rest in the same order. */
  predicate IsSubsequence<T(==)>(a: seq<T>, b: seq<T>)
    decreases |b|
  {
    if b == [] then a == []
    else (a != [] && a[0] == b[0] && IsSubsequence(a[1..], b[1..])) || IsSubsequence(a, b[1..])
  }

  /** The filter fails exactly when some entry makes the callback throw. */
  lemma {:induction false} FilterFailsIffSomeThrows(logs: seq<Body>, f: Filters, parse: DateParser)
    ensures Filter(logs, f, parse).Err? <==> exists i :: 0 <= i < |logs| && Throws(logs[i], f)
  {
    if logs != [] {
      FilterFailsIffSomeThrows(logs[1..], f, parse);
      CheckIsConjunction(logs[0], f, parse);
      if exists i :: 0 <= i < |logs| && Throws(logs[i], f) {
        var i :| 0 <= i < |logs| && Throws(logs[i], f);
        if i > 0 {
          assert Throws(logs[1..][i - 1], f);
        }
      }
      if exists i :: 0 <= i < |logs[1..]| && Throws(logs[1..][i], f) {
        var i :| 0 <= i < |logs[1..]| && Throws(logs[1..][i], f);
        assert Throws(logs[i + 1], f);
      }
    }
  }

  /**
   * Soundness and completeness: a successful filter returns an
   * order-preserving subsequence of the input whose members all match, and
   * it keeps every matching entry as often as it occurs.
   */
  lemma {:induction false} FilterKeepsExactlyMatches(logs: seq<Body>, f: Filters, parse: DateParser)
    requires Filter(logs, f, parse).Ok?
    ensures IsSubsequence(Filter(logs, f, parse).value, logs)
    ensures forall e :: e in Filter(logs, f, parse).value ==> Matches(e, f, parse)
    ensures forall e :: Matches(e, f, parse) ==>
      multiset(Filter(logs, f, parse).value)[e] == multiset(logs)[e]
    ensures forall e :: !Matches(e, f, parse) ==> e !in Filter(logs, f, parse).value
  {
    if logs != [] {
      var h, t := logs[0], logs[1..];
      assert logs == [h] + t;
      CheckIsConjunction(h, f, parse);
      FilterKeepsExactlyMatches(t, f, parse);
      var r := Filter(t, f, parse).value;
      if Check(h, f, parse) == Keep {
        assert Filter(logs, f, parse).value == [h] + r;
        assert ([h] + r)[1..] == r;
      } else {
        assert Filter(logs, f, parse).value == r;
      }
    }
  }

  /** With no filter supplied (or only empty ones) every entry is returned, in order. */
  lemma {:induction false} UnfilteredIsIdentity(logs: seq<Body>, f: Filters, parse: DateParser)
    requires forall n :: n in FilterNames ==> !Active(f, n)
    ensures Filter(logs, f, parse) == Ok(logs)
  {
    if logs != [] {
      UnfilteredIsIdentity(logs[1..], f, parse);
      assert [logs[0]] + logs[1..] == logs;
    }
  }

  /** Only the values of the eight filters, read as strings with "" for absent, decide the result. */
  lemma {:induction false} FilterReadsParamsOnly(logs: seq<Body>, f1: Filters, f2: Filters, parse: DateParser)
    requires forall i :: 0 <= i < |FilterNames| ==> Param(f1, FilterNames[i]) == Param(f2, FilterNames[i])
    ensures Filter(logs, f1, parse) == Filter(logs, f2, parse)
  {
    if logs != [] {
      FilterReadsParamsOnly(logs[1..], f1, f2, parse);
      CheckReadsParamsOnly(logs[0], f1, f2, parse);
    }
  }

  lemma CheckReadsParamsOnly(e: Body, f1: Filters, f2: Filters, parse: DateParser)
    requires forall i :: 0 <= i < |FilterNames| ==> Param(f1, FilterNames[i]) == Param(f2, FilterNames[i])
    ensures Check(e, f1, parse) == Check(e, f2, parse)
  {
    assert Param(f1, FilterNames[0]) == Param(f2, FilterNames[0]);
    assert Param(f1, FilterNames[1]) == Param(f2, FilterNames[1]);
    assert Param(f1, FilterNames[2]) == Param(f2, FilterNames[2]);
    assert Param(f1, FilterNames[3]) == Param(f2, FilterNames[3]);
    assert Param(f1, FilterNames[4]) == Param(f2, FilterNames[4]);
    assert Param(f1, FilterNames[5]) == Param(f2, FilterNames[5]);
    assert Param(f1, FilterNames[6]) == Param(f2, FilterNames[6]);
    assert Param(f1, FilterNames[7]) == Param(f2, FilterNames[7]);
  }

  /**
   * The query handler's filter object: each of the eight names bound to its
   * query parameter, and then every name whose value is undefined deleted.
   */
  method BuildFilters(query: map<string, string>) returns (filters: Filters)
    ensures filters == map n | n in FilterNames && n in query :: query[n]
  {
    var raw: map<string, Option<string>> :=
      map n | n in FilterNames :: if n in query then Some(query[n]) else None;
    for i := 0 to |FilterNames|
      invariant forall n :: n in raw ==> n in FilterNames && raw[n] == if n in query then Some(query[n]) else None
      invariant forall n :: n in FilterNames && n in query ==> n in raw
      invariant forall j :: 0 <= j < i && FilterNames[j] in raw ==> FilterNames[j] in query
      invariant forall j :: i <= j < |FilterNames| ==> FilterNames[j] in raw
    {
      var name := FilterNames[i];
      if raw[name].None? {
        raw := raw - {name};
      }
    }
    filters := map n | n in raw :: raw[n].value;
  }

  /** Dropping the undefined filters changes nothing, and neither do query parameters outside the eight. */
  lemma BuiltFiltersAgree(logs: seq<Body>, query: map<string, string>, parse: DateParser)
    ensures Filter(logs, map n | n in FilterNames && n in query :: query[n], parse) == Filter(logs, query, parse)
  {
    FilterReadsParamsOnly(logs, map n | n in FilterNames && n in query :: query[n], query, parse);
  }

  /** An entry whose time equals a bound passes that bound: both bounds are inclusive. */
  lemma BoundsAreInclusive(e: Body, f: Filters, parse: DateParser)
    requires TimeOf(e, parse).Some?
    requires Active(f, "timestamp_start") ==> parse(Param(f, "timestamp_start")) == TimeOf(e, parse)
    requires Active(f, "timestamp_end") ==> parse(Param(f, "timestamp_end")) == TimeOf(e, parse)
    ensures NotBeforeStart(e, f, parse) && NotAfterEnd(e, f, parse)
  {
  }

  /** With valid dates throughout, the bounds pass exactly the entries from start to end inclusive. */
  lemma WithinBounds(e: Body, f: Filters, parse: DateParser)
    requires TimeOf(e, parse).Some?
    requires Active(f, "timestamp_start") && parse(Param(f, "timestamp_start")).Some?
    requires Active(f, "timestamp_end") && parse(Param(f, "timestamp_end")).Some?
    ensures NotBeforeStart(e, f, parse) && NotAfterEnd(e, f, parse) <==>
      parse(Param(f, "timestamp_start")).value <= TimeOf(e, parse).value <= parse(Param(f, "timestamp_end")).value
  {
  }

  /** An entry or a bound that is not a valid date keeps the entry: `<` and `>` are false on NaN. */
  lemma InvalidDatesAreKept(e: Body, f: Filters, parse: DateParser)
    requires TimeOf(e, parse).None?
      || (parse(Param(f, "timestamp_start")).None? && parse(Param(f, "timestamp_end")).None?)
    ensures NotBeforeStart(e, f, parse) && NotAfterEnd(e, f, parse)
  {
  }

  /** The message filter ignores case: "timeout" finds "Connection Timeout". */
  lemma MessageIgnoresCase(e: Body, f: Filters)
    requires "message" in e && e["message"] == JStr("Connection Timeout")
    requires Param(f, "message") == "timeout"
    ensures MessageMatches(e, f)
  {
    var text := Lower("Connection Timeout");
    assert Lower("timeout") == "timeout";
    assert text[11..18] == "timeout";
    assert OccursAt(text, "timeout", 11);
  }
}
