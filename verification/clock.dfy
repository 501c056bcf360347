/** The time-of-day parser of the command line (`--wake-up HH:MM[:SS]`). */
module Clock {
  import opened Wrappers
  import opened Digits

  datatype Time = Time(hour: nat, minute: nat, second: nat)

  /** The ranges a time of day must lie in. */
  predicate InRange(t: Time) {
    t.hour < 24 && t.minute < 60 && t.second < 60
  }

  datatype TimeError = WrongFormat(text: string) | OutOfRange(text: string)

  /** The form `(\d{1,2}):(\d{2})(?::(\d{2}))?` matched against the whole string,
      with an absent seconds group read as 0. */
  function MatchTime(s: string): (r: Option<Time>)
    ensures r.Some? ==> 4 <= |s| <= 8 && |s| != 6 && s[|s| - 3] == ':'
    ensures r.Some? ==> r.value.hour < 100 && r.value.minute < 100 && r.value.second < 100
    ensures r.Some? && |s| <= 5 ==> r.value.second == 0
  {
    assert Pow10(2) == 100 && Pow10(1) == 10;
    var k := DigitRun(s);
    if k < 1 || 2 < k || |s| < k + 3 || s[k] != ':' || !AllDigits(s[k + 1..k + 3]) then None
    else
      var rest := s[k + 3..];
      if rest == [] then
        Some(Time(Value(s[..k]), Value(s[k + 1..k + 3]), 0))
      else if |rest| == 3 && rest[0] == ':' && AllDigits(rest[1..]) then
        Some(Time(Value(s[..k]), Value(s[k + 1..k + 3]), Value(rest[1..])))
      else None
  }

  function ParseTime(s: string): (r: Result<Time, TimeError>)
    ensures r.Success? ==> InRange(r.value)
  {
    match MatchTime(s)
    case None => Failure(WrongFormat(s))
    case Some(t) => if InRange(t) then Success(t) else Failure(OutOfRange(s))
  }

  /** The field widths a rendering can use: one-digit hours need an hour below 10. */
  predicate Printable(t: Time, twoDigitHour: bool, withSeconds: bool) {
    && (if twoDigitHour then t.hour < 100 else t.hour < 10)
    && t.minute < 100
    && t.second < 100
    && (withSeconds || t.second == 0)
  }

  /** The time written as `H:MM`, `HH:MM`, `H:MM:SS` or `HH:MM:SS`. */
  function Format(t: Time, twoDigitHour: bool, withSeconds: bool): string
    requires Printable(t, twoDigitHour, withSeconds)
  {
    (if twoDigitHour then Pad2(t.hour) else [DigitChar(t.hour)])
    + [':'] + Pad2(t.minute)
    + (if withSeconds then [':'] + Pad2(t.second) else [])
  }

  lemma FormatMatches(t: Time, twoDigitHour: bool, withSeconds: bool)
    requires Printable(t, twoDigitHour, withSeconds)
    ensures MatchTime(Format(t, twoDigitHour, withSeconds)) == Some(t)
  {
    var h := if twoDigitHour then Pad2(t.hour) else [DigitChar(t.hour)];
    var tail := [':'] + Pad2(t.minute) + (if withSeconds then [':'] + Pad2(t.second) else []);
    var s := Format(t, twoDigitHour, withSeconds);
    assert s == h + tail;
    assert AllDigits(h);
    DigitRunOfPrefix(h, tail);
    var k := |h|;
    assert s[..k] == h;
    if !twoDigitHour {
      assert h[..0] == [];
    }
    assert Value(h) == t.hour;
    assert s[k] == ':';
    assert s[k + 1..k + 3] == Pad2(t.minute);
    var rest := s[k + 3..];
    if withSeconds {
      assert rest == [':'] + Pad2(t.second);
      assert rest[1..] == Pad2(t.second);
    } else {
      assert rest == [];
    }
  }

  /** Every string the parser accepts is one of the four renderings of its result. */
  lemma MatchIsFormatted(s: string, t: Time)
    requires MatchTime(s) == Some(t)
    ensures exists twoDigitHour, withSeconds :: Printable(t, twoDigitHour, withSeconds)
                                                && Format(t, twoDigitHour, withSeconds) == s
  {
    var k := DigitRun(s);
    var twoDigitHour := k == 2;
    var withSeconds := |s| > k + 3;
    var hs := s[..k];
    if !twoDigitHour {
      assert hs == [hs[0]] && hs[..0] == [];
      DigitCharOfValue(hs[0]);
    } else {
      PadOfValue(hs);
    }
    PadOfValue(s[k + 1..k + 3]);
    if withSeconds {
      PadOfValue(s[k + 4..]);
      assert s[k + 3..][1..] == s[k + 4..];
      assert s[k + 3..] == [':'] + s[k + 4..];
      assert s == s[..k] + [s[k]] + s[k + 1..k + 3] + s[k + 3..];
      assert s == hs + [':'] + s[k + 1..k + 3] + ([':'] + s[k + 4..]);
    } else {
      assert s == hs + [':'] + s[k + 1..k + 3];
    }
    assert Format(t, twoDigitHour, withSeconds) == s;
  }

  /** An in-range time, written in any accepted form, parses back to itself;
      a missing seconds field reads as 0. */
  lemma ParseTimeRoundTrip(t: Time, twoDigitHour: bool, withSeconds: bool)
    requires Printable(t, twoDigitHour, withSeconds) && InRange(t)
    ensures ParseTime(Format(t, twoDigitHour, withSeconds)) == Success(t)
  {
    FormatMatches(t, twoDigitHour, withSeconds);
  }

  /** A well-formed time with an hour of 24 or more, or minutes or seconds of 60
      or more, is rejected as out of range. */
  lemma ParseTimeRejectsRange(t: Time, twoDigitHour: bool, withSeconds: bool)
    requires Printable(t, twoDigitHour, withSeconds) && !InRange(t)
    ensures ParseTime(Format(t, twoDigitHour, withSeconds)) == Failure(OutOfRange(Format(t, twoDigitHour, withSeconds)))
  {
    FormatMatches(t, twoDigitHour, withSeconds);
  }

  /** The parser accepts exactly the in-range times written in one of the four forms. */
  lemma ParseTimeAccepts(s: string, t: Time)
    ensures ParseTime(s) == Success(t) <==>
              InRange(t) && exists twoDigitHour, withSeconds :: Printable(t, twoDigitHour, withSeconds)
                                                                && Format(t, twoDigitHour, withSeconds) == s
  {
    if ParseTime(s) == Success(t) {
      MatchIsFormatted(s, t);
    }
    if InRange(t) && exists twoDigitHour, withSeconds :: Printable(t, twoDigitHour, withSeconds)
                                                         && Format(t, twoDigitHour, withSeconds) == s {
      var a, b :| Printable(t, a, b) && Format(t, a, b) == s;
      ParseTimeRoundTrip(t, a, b);
    }
  }
}
