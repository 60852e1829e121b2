/**
 * `new Date(value)` for values read from a stored log entry. Parsing a date
 * string is left to a caller-supplied parser; the conversions JavaScript
 * applies before parsing are modelled.
 */
module Dates {
  import opened Wrappers
  import opened Json

  /**
   * Date parsing of a string: a time value in milliseconds, or None for an
   * invalid date (NaN). Which strings parse, and the local time zone applied
   * to forms without `Z`, belong to the JavaScript engine and are a parameter.
   */
  type DateParser = string -> Option<int>

  /** The largest magnitude of a valid time value. */
  const MaxTimeValue: int := 8_640_000_000_000_000

  /**
   * `new Date(j)`: a string is parsed; a number is a time value if it is in
   * range; null is 0 and a boolean 0 or 1; arrays and objects are converted
   * to their string form first.
   */
  function DateOf(j: Json, parse: DateParser): (t: Option<int>)
    ensures j.JStr? ==> t == parse(j.s)
    ensures j.JNum? ==> (t.Some? <==> -MaxTimeValue <= j.n <= MaxTimeValue)
    ensures j.JObj? ==> t == parse("[object Object]")
    ensures j.JArr? && |j.items| == 0 ==> t == parse("")
    ensures j.JArr? && |j.items| == 1 && j.items[0].JStr? ==> t == parse(j.items[0].s)
    ensures j.JArr? && |j.items| == 1 && j.items[0].JNum? ==> t == parse(IntToDecimal(j.items[0].n))
    ensures j.JArr? && |j.items| == 1 && j.items[0].JNull? ==> t == parse("")
  {
    match j
    case JStr(s) => parse(s)
    case JNum(n) => if -MaxTimeValue <= n <= MaxTimeValue then Some(n) else None
    case JNull => Some(0)
    case JBool(b) => Some(if b then 1 else 0)
    case JArr(items) =>
      var parts := seq(|items|, i requires 0 <= i < |items| =>
        if items[i].JNull? then "" else StringForm(items[i]));
      assert StringForm(j) == JoinWithCommas(parts);
      assert |items| == 1 ==> StringForm(j) == parts[0];
      parse(StringForm(j))
    case JObj(_) => parse(StringForm(j))
  }

  /** `new Date(log.timestamp)`; a missing property is undefined, an invalid date. */
  function TimeOf(e: Body, parse: DateParser): Option<int> {
    if "timestamp" in e then DateOf(e["timestamp"], parse) else None
  }
}
