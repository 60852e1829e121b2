/**
 * The timestamp pattern of the entry validator,
 * `^\d{4}-\d{2}-\d{2}T\d{2}:\d{2}:\d{2}(\.\d{3})?Z?$`: a restricted form of
 * the ISO 8601 extended date-time format with optional milliseconds and an
 * optional trailing `Z`. Only the character shape is checked; month, day and
 * hour ranges are not.
 */
module Timestamp {
  import opened Wrappers
  import opened Json

  /** One position of a fixed-width pattern: `\d` or a literal character. */
  datatype Token = Digit | Lit(c: char)

  predicate Fits(c: char, t: Token) {
    match t
    case Digit => IsDecimalDigit(c)
    case Lit(l) => c == l
  }

  /** `\d{4}-\d{2}-\d{2}T\d{2}:\d{2}:\d{2}` */
  const DateTime: seq<Token> :=
    [Digit, Digit, Digit, Digit, Lit('-'), Digit, Digit, Lit('-'), Digit, Digit, Lit('T'),
     Digit, Digit, Lit(':'), Digit, Digit, Lit(':'), Digit, Digit]

  /** `\.\d{3}` */
  const Millis: seq<Token> := [Lit('.'), Digit, Digit, Digit]

  /** Matches the tokens `p` against a prefix of `s`, one character each, and returns what is left. */
  function MatchTokens(s: string, p: seq<Token>): (rest: Option<string>)
    ensures rest.Some? <==> |p| <= |s| && forall i :: 0 <= i < |p| ==> Fits(s[i], p[i])
    ensures rest.Some? ==> rest.value == s[|p|..]
  {
    if p == [] then Some(s)
    else if s != [] && Fits(s[0], p[0]) then
      MatchTokens(s[1..], p[1..])
    else None
  }

  /**
   * The anchored pattern, matched left to right: the date and time, then the
   * optional millisecond group (taken when it matches, since a left-over `.`
   * could not match what follows), then an optional `Z`, then the end.
   */
  predicate MatchesPattern(s: string) {
    match MatchTokens(s, DateTime)
    case None => false
    case Some(rest) =>
      var afterMillis := match MatchTokens(rest, Millis) case Some(r) => r case None => rest;
      afterMillis == "" || afterMillis == "Z"
  }

  /** What the pattern demands at position `i` of a string of length `n`. */
  function Slot(n: nat, i: nat): Token {
    if i == 4 || i == 7 then Lit('-')
    else if i == 10 then Lit('T')
    else if i == 13 || i == 16 then Lit(':')
    else if i == 19 && n >= 23 then Lit('.')
    else if i + 1 == n && (n == 20 || n == 24) then Lit('Z')
    else Digit
  }

  /** The language of the pattern, described position by position: four lengths, fixed slots. */
  predicate HasTimestampShape(s: string) {
    && (|s| == 19 || |s| == 20 || |s| == 23 || |s| == 24)
    && forall i :: 0 <= i < |s| ==> Fits(s[i], Slot(|s|, i))
  }

  lemma DateTimeSlots(n: nat)
    requires n == 19 || n == 20 || n == 23 || n == 24
    ensures |DateTime| == 19
    ensures forall i :: 0 <= i < 19 ==> DateTime[i] == Slot(n, i)
  {
  }

  lemma MatchedHasShape(s: string)
    requires MatchesPattern(s)
    ensures HasTimestampShape(s)
  {
    var rest := s[19..];
    assert MatchTokens(s, DateTime) == Some(rest);
    var m := MatchTokens(rest, Millis);
    assert m.Some? ==> |s| == 23 || |s| == 24;
    assert m.None? ==> |s| == 19 || |s| == 20;
    DateTimeSlots(|s|);
    forall i | 0 <= i < |s| ensures Fits(s[i], Slot(|s|, i)) {
      if 19 <= i < 23 && m.Some? {
        assert Fits(rest[i - 19], Millis[i - 19]);
      }
    }
  }

  lemma ShapeIsMatched(s: string)
    requires HasTimestampShape(s)
    ensures MatchesPattern(s)
  {
    DateTimeSlots(|s|);
    var rest := s[19..];
    assert forall i :: 0 <= i < 19 ==> Fits(s[i], DateTime[i]);
    assert MatchTokens(s, DateTime) == Some(rest);
    if |s| >= 23 {
      assert forall i :: 0 <= i < 4 ==> Fits(rest[i], Millis[i]) by {
        assert forall i :: 0 <= i < 4 ==> rest[i] == s[19 + i];
      }
      assert MatchTokens(rest, Millis) == Some(rest[4..]);
      assert |s| == 24 ==> rest[4..] == "Z" by {
        assert |s| == 24 ==> s[23] == 'Z';
      }
    } else {
      assert |s| == 20 ==> rest == "Z" by {
        assert |s| == 20 ==> s[19] == 'Z';
      }
    }
  }

  /** The left-to-right matcher accepts exactly the strings of the positional shape. */
  lemma PatternIsShape(s: string)
    ensures MatchesPattern(s) <==> HasTimestampShape(s)
  {
    if MatchesPattern(s) {
      MatchedHasShape(s);
    }
    if HasTimestampShape(s) {
      ShapeIsMatched(s);
    }
  }

  /** A string of the shape holds no comma and has `T` at position 10. */
  lemma ShapeFacts(s: string)
    requires HasTimestampShape(s)
    ensures ',' !in s
    ensures s[10] == 'T'
  {
    assert Fits(s[10], Slot(|s|, 10));
    forall i | 0 <= i < |s| ensures s[i] != ',' {
      assert Fits(s[i], Slot(|s|, i));
    }
  }

  /** An accepted timestamp: seconds precision, trailing `Z`. */
  lemma AcceptsUtcForm()
    ensures MatchesPattern("2024-01-15T10:30:00Z")
  {
    ShapeIsMatched("2024-01-15T10:30:00Z");
  }

  /** An accepted timestamp: milliseconds, no `Z`. */
  lemma AcceptsMillisForm()
    ensures MatchesPattern("2024-01-15T10:30:00.123")
  {
    ShapeIsMatched("2024-01-15T10:30:00.123");
  }

  /** Only the shape is checked: month 13, day 40 and hour 99 pass. */
  lemma AcceptsOutOfRangeFields()
    ensures MatchesPattern("2024-13-40T99:99:99.999Z")
  {
    ShapeIsMatched("2024-13-40T99:99:99.999Z");
  }

  /** A bare date is rejected. */
  lemma RejectsBareDate()
    ensures !MatchesPattern("2024-13-40")
  {
  }

  /** Free text is rejected. */
  lemma RejectsFreeText()
    ensures !MatchesPattern("not-a-date")
  {
  }

  /** A zone offset other than `Z` is rejected. */
  lemma RejectsZoneOffset()
    ensures !MatchesPattern("2024-01-15T10:30:00+02:00")
  {
  }

  /** Milliseconds must have exactly three digits. */
  lemma RejectsShortMillis()
    ensures !MatchesPattern("2024-01-15T10:30:00.12Z")
  {
  }
}
