/** The duration parser of the command line (`--time`, `--meas-period`).

    A duration is either a sequence of unit-suffixed counts in the fixed order
    years, months, weeks, days, hours, minutes, seconds (`3m30s`, `2h`, `1y2M`),
    or, when that form does not match, a plain number of seconds with an
    optional fractional part (`10`, `2.5`). Upper-case `M` means months and
    lower-case `m` means minutes; every other unit letter is case-insensitive. */
module Duration {
  import opened Wrappers
  import opened Digits

  datatype Unit = Years | Months | Weeks | Days | Hours | Minutes | Seconds

  predicate IsUnitLetter(c: char) {
    c in "yYMwWdDhHmsS"
  }

  function UnitOf(c: char): Unit
    requires IsUnitLetter(c)
  {
    if c == 'y' || c == 'Y' then Years
    else if c == 'M' then Months
    else if c == 'w' || c == 'W' then Weeks
    else if c == 'd' || c == 'D' then Days
    else if c == 'h' || c == 'H' then Hours
    else if c == 'm' then Minutes
    else Seconds
  }

  /** Position of a unit in the fixed order the units must appear in. */
  function Rank(u: Unit): nat {
    match u
    case Years => 0
    case Months => 1
    case Weeks => 2
    case Days => 3
    case Hours => 4
    case Minutes => 5
    case Seconds => 6
  }

  /** Seconds in one unit: a year is 365 days and a month 30 days. */
  function Weight(u: Unit): nat {
    match u
    case Years => 31_536_000
    case Months => 2_592_000
    case Weeks => 604_800
    case Days => 86_400
    case Hours => 3_600
    case Minutes => 60
    case Seconds => 1
  }

  /** One `(\d+)<unit>` group of the unit form: its digits and its unit letter. */
  datatype Term = Term(count: string, letter: char)

  predicate ValidTerm(t: Term) {
    |t.count| > 0 && AllDigits(t.count) && IsUnitLetter(t.letter)
  }

  predicate ValidTerms(ts: seq<Term>) {
    forall i | 0 <= i < |ts| :: ValidTerm(ts[i])
  }

  function TermUnit(t: Term): Unit
    requires ValidTerm(t)
  {
    UnitOf(t.letter)
  }

  /** Units strictly follow the fixed order, so each appears at most once. */
  predicate Ordered(ts: seq<Term>)
    requires ValidTerms(ts)
  {
    forall i, j | 0 <= i < j < |ts| :: Rank(TermUnit(ts[i])) < Rank(TermUnit(ts[j]))
  }

  /** The text a sequence of terms is written as. */
  function Render(ts: seq<Term>): string {
    if ts == [] then [] else ts[0].count + [ts[0].letter] + Render(ts[1..])
  }

  /** Cuts a string into `(\d+)<unit>` terms, in whatever order they come. */
  function Split(s: string): (r: Option<seq<Term>>)
    ensures r.Some? ==> ValidTerms(r.value) && Render(r.value) == s
    decreases |s|
  {
    if s == [] then Some([])
    else
      var k := DigitRun(s);
      if k == 0 || k == |s| || !IsUnitLetter(s[k]) then None
      else
        match Split(s[k + 1..])
        case None => None
        case Some(rest) =>
          var ts := [Term(s[..k], s[k])] + rest;
          assert ts[1..] == rest;
          assert s == s[..k] + [s[k]] + s[k + 1..];
          Some(ts)
  }

  lemma {:induction false} SplitRender(ts: seq<Term>)
    requires ValidTerms(ts)
    ensures Split(Render(ts)) == Some(ts)
  {
    if ts != [] {
      var t := ts[0];
      assert ValidTerm(t);
      var s := Render(ts);
      assert s == t.count + ([t.letter] + Render(ts[1..]));
      DigitRunOfPrefix(t.count, [t.letter] + Render(ts[1..]));
      assert s[..|t.count|] == t.count;
      assert s[|t.count|] == t.letter;
      assert s[|t.count| + 1..] == Render(ts[1..]);
      assert ValidTerms(ts[1..]);
      SplitRender(ts[1..]);
      assert [Term(t.count, t.letter)] + ts[1..] == ts;
    }
  }

  /** The unit form `(?:(\d+)[yY])?(?:(\d+)M)?…(?:(\d+)[sS])?` matched against the whole string. */
  function MatchUnits(s: string): (r: Option<seq<Term>>)
    ensures r.Some? ==> ValidTerms(r.value) && Ordered(r.value) && Render(r.value) == s
  {
    match Split(s)
    case Some(ts) => if Ordered(ts) then Some(ts) else None
    case None => None
  }

  /** The capture of the group for unit `u`, or 0 when that group did not take part. */
  function Group(ts: seq<Term>, u: Unit): nat
    requires ValidTerms(ts)
  {
    if ts == [] then 0
    else if TermUnit(ts[0]) == u then Value(ts[0].count)
    else Group(ts[1..], u)
  }

  /** The conversion as the source performs it: fold the larger units into days,
      then days into hours, hours into minutes and minutes into seconds. */
  function CascadeSeconds(ts: seq<Term>): (r: nat)
    requires ValidTerms(ts)
    ensures r == GroupSum(ts)
  {
    var days := Group(ts, Days) + 365 * Group(ts, Years) + 30 * Group(ts, Months) + 7 * Group(ts, Weeks);
    var hours := Group(ts, Hours) + 24 * days;
    var minutes := Group(ts, Minutes) + 60 * hours;
    Group(ts, Seconds) + 60 * minutes
  }

  /** The reference meaning of a unit form: each count times its unit's weight. */
  function WeightedSum(ts: seq<Term>): nat
    requires ValidTerms(ts)
  {
    if ts == [] then 0 else Value(ts[0].count) * Weight(TermUnit(ts[0])) + WeightedSum(ts[1..])
  }

  function GroupSum(ts: seq<Term>): nat
    requires ValidTerms(ts)
  {
    Group(ts, Years) * 31_536_000 + Group(ts, Months) * 2_592_000 + Group(ts, Weeks) * 604_800
    + Group(ts, Days) * 86_400 + Group(ts, Hours) * 3_600 + Group(ts, Minutes) * 60 + Group(ts, Seconds)
  }

  lemma {:induction false} GroupAbsent(ts: seq<Term>, u: Unit)
    requires ValidTerms(ts)
    requires forall i | 0 <= i < |ts| :: TermUnit(ts[i]) != u
    ensures Group(ts, u) == 0
  {
    if ts != [] {
      assert TermUnit(ts[0]) != u;
      assert ValidTerms(ts[1..]);
      forall i | 0 <= i < |ts[1..]|
        ensures TermUnit(ts[1..][i]) != u
      {
        assert ts[1..][i] == ts[i + 1];
      }
      GroupAbsent(ts[1..], u);
    }
  }

  lemma {:induction false} WeightedSumByGroups(ts: seq<Term>)
    requires ValidTerms(ts) && Ordered(ts)
    ensures WeightedSum(ts) == GroupSum(ts)
  {
    if ts != [] {
      var rest := ts[1..];
      assert ValidTerms(rest);
      assert Ordered(rest) by {
        forall i, j | 0 <= i < j < |rest|
          ensures Rank(TermUnit(rest[i])) < Rank(TermUnit(rest[j]))
        {
          assert rest[i] == ts[i + 1] && rest[j] == ts[j + 1];
        }
      }
      var u := TermUnit(ts[0]);
      forall i | 0 <= i < |rest|
        ensures TermUnit(rest[i]) != u
      {
        assert rest[i] == ts[i + 1];
        assert Rank(u) < Rank(TermUnit(ts[i + 1]));
      }
      GroupAbsent(rest, u);
      WeightedSumByGroups(rest);
    }
  }

  /** The source's cascade of conversions computes the weighted sum of the counts. */
  lemma CascadeIsWeightedSum(ts: seq<Term>)
    requires ValidTerms(ts) && Ordered(ts)
    ensures CascadeSeconds(ts) == WeightedSum(ts)
  {
    WeightedSumByGroups(ts);
  }

  /** The fallback form `\d+(?:\.\d*)?`: a whole part and an optional fraction. */
  predicate ValidDecimal(whole: string, fraction: Option<string>) {
    |whole| > 0 && AllDigits(whole) && (fraction.Some? ==> AllDigits(fraction.value))
  }

  function RenderDecimal(whole: string, fraction: Option<string>): string {
    whole + (if fraction.Some? then ['.'] + fraction.value else [])
  }

  function DecimalValue(whole: string, fraction: Option<string>): real
    requires ValidDecimal(whole, fraction)
  {
    Value(whole) as real + (if fraction.Some? then Fraction(fraction.value) else 0.0)
  }

  /** The fallback form matched against the whole string, cut into its two parts. */
  function MatchDecimal(s: string): (r: Option<(string, Option<string>)>)
    ensures r.Some? ==> ValidDecimal(r.value.0, r.value.1) && RenderDecimal(r.value.0, r.value.1) == s
  {
    var k := DigitRun(s);
    if k == 0 then None
    else if k == |s| then
      assert s[..k] == s;
      Some((s, None))
    else if s[k] == '.' && AllDigits(s[k + 1..]) then
      assert s == s[..k] + ['.'] + s[k + 1..];
      Some((s[..k], Some(s[k + 1..])))
    else None
  }

  lemma MatchDecimalRender(whole: string, fraction: Option<string>)
    requires ValidDecimal(whole, fraction)
    ensures MatchDecimal(RenderDecimal(whole, fraction)) == Some((whole, fraction))
  {
    var s := RenderDecimal(whole, fraction);
    if fraction.Some? {
      DigitRunOfPrefix(whole, ['.'] + fraction.value);
      assert s[..|whole|] == whole;
      assert s[|whole| + 1..] == fraction.value;
    } else {
      DigitRunOfPrefix(whole, []);
      assert s == whole;
    }
  }

  /** A parsed duration: unit forms give whole seconds (a Python `int`), the
      fallback form gives a decimal number of seconds (a Python `float`). */
  datatype Duration = Whole(seconds: nat) | Decimal(amount: real)

  function InSeconds(d: Duration): real {
    match d
    case Whole(n) => n as real
    case Decimal(x) => x
  }

  datatype DurationError = InvalidDuration(text: string)

  function ParseDuration(s: string): (r: Result<Duration, DurationError>)
    ensures r.Success? ==> InSeconds(r.value) >= 0.0
    ensures s == [] ==> r == Success(Whole(0))
    ensures r.Failure? ==> r.error == InvalidDuration(s)
  {
    match MatchUnits(s)
    case Some(ts) => Success(Whole(CascadeSeconds(ts)))
    case None =>
      match MatchDecimal(s)
      case Some((whole, fraction)) => Success(Decimal(DecimalValue(whole, fraction)))
      case None => Failure(InvalidDuration(s))
  }

  /** A string written in unit form, units in order, parses to the weighted sum of its counts. */
  lemma ParseUnitForm(ts: seq<Term>)
    requires ValidTerms(ts) && Ordered(ts)
    ensures ParseDuration(Render(ts)) == Success(Whole(WeightedSum(ts)))
  {
    SplitRender(ts);
    CascadeIsWeightedSum(ts);
  }

  /** Conversely, every whole-seconds result comes from a unit form in order. */
  lemma ParseWholeIsUnitForm(s: string, n: nat)
    requires ParseDuration(s) == Success(Whole(n))
    ensures exists ts :: ValidTerms(ts) && Ordered(ts) && Render(ts) == s && WeightedSum(ts) == n
  {
    var ts := MatchUnits(s).value;
    CascadeIsWeightedSum(ts);
  }

  /** A number without units parses to its decimal value. */
  lemma ParseDecimalForm(whole: string, fraction: Option<string>)
    requires ValidDecimal(whole, fraction)
    ensures ParseDuration(RenderDecimal(whole, fraction)) == Success(Decimal(DecimalValue(whole, fraction)))
  {
    var s := RenderDecimal(whole, fraction);
    MatchDecimalRender(whole, fraction);
    NoUnitLetterNoUnitForm(s);
  }

  /** Conversely, every decimal result comes from the fallback form. */
  lemma ParseDecimalIsDecimalForm(s: string, x: real)
    requires ParseDuration(s) == Success(Decimal(x))
    ensures exists whole, fraction :: ValidDecimal(whole, fraction) && RenderDecimal(whole, fraction) == s
                                      && DecimalValue(whole, fraction) == x
  {
    var m := MatchDecimal(s).value;
    assert RenderDecimal(m.0, m.1) == s;
  }

  predicate HasUnitLetter(s: string) {
    exists i | 0 <= i < |s| :: IsUnitLetter(s[i])
  }

  /** A non-empty string without any unit letter is never in unit form. */
  lemma NoUnitLetterNoUnitForm(s: string)
    requires s != [] && !HasUnitLetter(s)
    ensures MatchUnits(s) == None
  {
    var k := DigitRun(s);
    if k != 0 && k != |s| {
      assert !IsUnitLetter(s[k]);
    }
  }

  /** The fallback form contains only digits and at most one '.'. */
  lemma DecimalHasNoUnitLetter(whole: string, fraction: Option<string>)
    requires ValidDecimal(whole, fraction)
    ensures !HasUnitLetter(RenderDecimal(whole, fraction))
  {
    var s := RenderDecimal(whole, fraction);
    forall i | 0 <= i < |s|
      ensures !IsUnitLetter(s[i])
    {
      if i < |whole| {
        assert s[i] == whole[i];
      } else if i > |whole| {
        assert s[i] == fraction.value[i - |whole| - 1];
      }
    }
  }

  /** Units written out of the fixed order, or a unit written twice, are rejected. */
  lemma OutOfOrderRejected(ts: seq<Term>)
    requires ValidTerms(ts) && !Ordered(ts)
    ensures ParseDuration(Render(ts)) == Failure(InvalidDuration(Render(ts)))
  {
    var s := Render(ts);
    SplitRender(ts);
    assert |ts| > 0;
    assert s[|ts[0].count|] == ts[0].letter;
    assert HasUnitLetter(s);
    if MatchDecimal(s).Some? {
      var m := MatchDecimal(s).value;
      DecimalHasNoUnitLetter(m.0, m.1);
    }
  }

  /** The parser rejects exactly the strings that are in neither form. */
  lemma ParseDurationRejects(s: string)
    ensures ParseDuration(s).Failure? <==>
              (forall ts :: !(ValidTerms(ts) && Ordered(ts) && Render(ts) == s))
              && (forall whole, fraction :: !(ValidDecimal(whole, fraction) && RenderDecimal(whole, fraction) == s))
  {
    if ParseDuration(s).Success? {
      match ParseDuration(s).value
      case Whole(n) => ParseWholeIsUnitForm(s, n);
      case Decimal(x) => ParseDecimalIsDecimalForm(s, x);
    } else {
      forall ts | ValidTerms(ts) && Ordered(ts)
        ensures Render(ts) != s
      {
        ParseUnitForm(ts);
      }
      forall whole, fraction | ValidDecimal(whole, fraction)
        ensures RenderDecimal(whole, fraction) != s
      {
        ParseDecimalForm(whole, fraction);
      }
    }
  }
}
