/**
 * The log-entry validator run on every ingested body: the eight required
 * properties, in a fixed order, then the level, then the timestamp, then the
 * metadata. The first failing check is reported and nothing after it runs.
 */
module Validation {
  import opened Wrappers
  import opened Json
  import Timestamp

  datatype ValidationError =
    | MissingField(name: string)
    | InvalidLevel
    | InvalidTimestamp
    | InvalidMetadata

  datatype ValidationResult = Valid | Invalid(error: ValidationError)

  /** The required properties, in the order they are checked. */
  const RequiredFields: seq<string> :=
    ["level", "message", "resourceId", "timestamp", "traceId", "spanId", "commit", "metadata"]

  const ValidLevels: seq<string> := ["error", "warn", "info", "debug"]

  /** `validLevels.includes(log.level)`: only one of the four strings themselves. */
  predicate LevelOk(j: Json) {
    j.JStr? && j.s in ValidLevels
  }

  /** `timestampRegex.test(log.timestamp)`: the pattern is tried on the value's string form. */
  predicate TimestampOk(j: Json) {
    Timestamp.MatchesPattern(StringForm(j))
  }

  /** `typeof m === 'object' && m !== null && !Array.isArray(m)` */
  predicate MetadataOk(j: Json) {
    j.JObj?
  }

  /** Every required property is an own property of the body, whatever its value. */
  predicate AllPresent(body: Body) {
    forall k :: k in RequiredFields ==> k in body
  }

  /** `fields[i]` is absent from the body and every field before it is present. */
  ghost predicate FirstAbsentAt(body: Body, fields: seq<string>, i: int) {
    && 0 <= i < |fields|
    && fields[i] !in body
    && forall j :: 0 <= j < i ==> fields[j] in body
  }

  /** The first of `fields` that the body lacks, if any. */
  function FirstMissing(body: Body, fields: seq<string>): (m: Option<string>)
    ensures m.None? <==> forall k :: k in fields ==> k in body
    ensures m.Some? ==> exists i :: FirstAbsentAt(body, fields, i) && fields[i] == m.value
  {
    if fields == [] then None
    else if fields[0] !in body then
      assert FirstAbsentAt(body, fields, 0);
      Some(fields[0])
    else
      var m := FirstMissing(body, fields[1..]);
      FirstAbsentShift(body, fields, m);
      m
  }

  lemma FirstAbsentShift(body: Body, fields: seq<string>, m: Option<string>)
    requires fields != [] && fields[0] in body
    requires m.Some? ==> exists i :: FirstAbsentAt(body, fields[1..], i) && fields[1..][i] == m.value
    ensures m.Some? ==> exists i :: FirstAbsentAt(body, fields, i) && fields[i] == m.value
  {
    if m.Some? {
      var i :| FirstAbsentAt(body, fields[1..], i) && fields[1..][i] == m.value;
      assert FirstAbsentAt(body, fields, i + 1);
    }
  }

  /**
   * The validator's verdict. Valid exactly when all four checks pass; each
   * error kind exactly when its check is the first one to fail.
   */
  function Validate(body: Body): (v: ValidationResult)
    ensures v == Valid <==>
      && AllPresent(body)
      && LevelOk(body["level"])
      && TimestampOk(body["timestamp"])
      && MetadataOk(body["metadata"])
    ensures (v.Invalid? && v.error.MissingField?) <==> !AllPresent(body)
    ensures v.Invalid? && v.error.MissingField? ==>
      exists i :: FirstAbsentAt(body, RequiredFields, i) && RequiredFields[i] == v.error.name
    ensures v == Invalid(InvalidLevel) <==> AllPresent(body) && !LevelOk(body["level"])
    ensures v == Invalid(InvalidTimestamp) <==>
      AllPresent(body) && LevelOk(body["level"]) && !TimestampOk(body["timestamp"])
    ensures v == Invalid(InvalidMetadata) <==>
      && AllPresent(body)
      && LevelOk(body["level"])
      && TimestampOk(body["timestamp"])
      && !MetadataOk(body["metadata"])
  {
    match FirstMissing(body, RequiredFields)
    case Some(name) => Invalid(MissingField(name))
    case None =>
      if !LevelOk(body["level"]) then Invalid(InvalidLevel)
      else if !TimestampOk(body["timestamp"]) then Invalid(InvalidTimestamp)
      else if !MetadataOk(body["metadata"]) then Invalid(InvalidMetadata)
      else Valid
  }

  /** The validator as the server runs it: a loop over the required fields with an early return. */
  method ValidateLogEntry(body: Body) returns (v: ValidationResult)
    ensures v == Validate(body)
  {
    for i := 0 to |RequiredFields|
      invariant forall j :: 0 <= j < i ==> RequiredFields[j] in body
    {
      if RequiredFields[i] !in body {
        assert FirstAbsentAt(body, RequiredFields, i);
        return Invalid(MissingField(RequiredFields[i]));
      }
    }
    assert RequiredFields[0] in body && RequiredFields[3] in body && RequiredFields[7] in body;
    if !LevelOk(body["level"]) {
      return Invalid(InvalidLevel);
    }
    if !TimestampOk(body["timestamp"]) {
      return Invalid(InvalidTimestamp);
    }
    if !MetadataOk(body["metadata"]) {
      return Invalid(InvalidMetadata);
    }
    return Valid;
  }

  /** The first missing field is reported, in the fixed order, whatever else is wrong with the body. */
  lemma ReportsFirstMissing(body: Body, i: int)
    requires FirstAbsentAt(body, RequiredFields, i)
    ensures Validate(body) == Invalid(MissingField(RequiredFields[i]))
  {
    var v := Validate(body);
    assert !AllPresent(body);
    var i' :| FirstAbsentAt(body, RequiredFields, i') && RequiredFields[i'] == v.error.name;
    assert i' == i;
  }

  /** Two bodies with the same property names have the same first missing field. */
  lemma {:induction false} FirstMissingReadsKeysOnly(b1: Body, b2: Body, fields: seq<string>)
    requires b1.Keys == b2.Keys
    ensures FirstMissing(b1, fields) == FirstMissing(b2, fields)
  {
    if fields != [] {
      FirstMissingReadsKeysOnly(b1, b2, fields[1..]);
    }
  }

  /**
   * Presence means key existence: the value of a free-text property, the
   * empty string included, cannot change the verdict.
   */
  lemma PresenceIsKeyExistence(body: Body, k: string, x: Json)
    requires k in body
    requires k != "level" && k != "timestamp" && k != "metadata"
    ensures Validate(body[k := x]) == Validate(body)
  {
    FirstMissingReadsKeysOnly(body[k := x], body, RequiredFields);
  }

  lemma NumeralIsNotTimestamp(n: int)
    ensures !Timestamp.MatchesPattern(IntToDecimal(n))
  {
    var s := IntToDecimal(n);
    if Timestamp.MatchesPattern(s) {
      Timestamp.PatternIsShape(s);
      Timestamp.ShapeFacts(s);
    }
  }

  lemma JoinedIsNotTimestamp(parts: seq<string>)
    requires |parts| >= 2
    ensures !Timestamp.MatchesPattern(JoinWithCommas(parts))
  {
    var s := JoinWithCommas(parts);
    if Timestamp.MatchesPattern(s) {
      Timestamp.PatternIsShape(s);
      Timestamp.ShapeFacts(s);
    }
  }

  /**
   * Which values pass the timestamp check: a string of the pattern, or,
   * because the check converts its argument to a string, an array whose only
   * element passes it. Numbers, booleans, null, objects and every other array
   * fail.
   */
  lemma {:induction false} TimestampValues(j: Json)
    ensures TimestampOk(j) <==>
      || (j.JStr? && Timestamp.MatchesPattern(j.s))
      || (j.JArr? && |j.items| == 1 && TimestampOk(j.items[0]))
  {
    match j
    case JNull =>
    case JBool(_) =>
    case JNum(n) => NumeralIsNotTimestamp(n);
    case JStr(_) =>
    case JObj(_) =>
    case JArr(items) =>
      var parts := seq(|items|, i requires 0 <= i < |items| =>
        if items[i].JNull? then "" else StringForm(items[i]));
      assert StringForm(j) == JoinWithCommas(parts);
      if |items| >= 2 {
        JoinedIsNotTimestamp(parts);
      } else if |items| == 1 {
        assert StringForm(j) == parts[0];
        if items[0].JNull? {
          assert !Timestamp.MatchesPattern("");
        }
      }
  }

  /** Arrays, null, strings and numbers as metadata are all rejected once the earlier checks pass. */
  lemma RejectsNonObjectMetadata(body: Body)
    requires AllPresent(body) && LevelOk(body["level"]) && TimestampOk(body["timestamp"])
    requires body["metadata"].JArr? || body["metadata"].JNull? || body["metadata"].JStr? || body["metadata"].JNum?
    ensures Validate(body) == Invalid(InvalidMetadata)
  {
  }
}
