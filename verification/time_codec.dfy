/**
  The "HH:MM" time codec shared by the validator and the simulator.

  Parsing follows `h, m = map(int, time_str.split(':'))` followed by
  `h * 60 + m`: the text is split at every colon, there must be exactly two
  fields, and each field must be an integer literal. Python's `int()` is
  modelled as an optional sign followed by one or more ASCII digits.

  Formatting follows `f"{int(t / 60):02d}:{int(t % 60):02d}"`: the hour is
  the quotient truncated toward zero, the minute is the floor remainder, and
  each field is zero-padded to at least two characters.
*/
module TimeCodec {
  import opened Wrappers

  // ---------------------------------------------------------------------
  // Decimal digits
  // ---------------------------------------------------------------------

  predicate IsDigit(c: char) {
    '0' <= c <= '9'
  }

  predicate AllDigits(s: string) {
    forall i :: 0 <= i < |s| ==> IsDigit(s[i])
  }

  function DigitValue(c: char): nat
    requires IsDigit(c)
  {
    c as int - '0' as int
  }

  function DigitChar(d: nat): (c: char)
    requires d < 10
    ensures IsDigit(c) && DigitValue(c) == d
  {
    ('0' as int + d) as char
  }

  /** The value of a string of decimal digits, most significant first; leading
      zeros are allowed, as they are for Python's `int("08")`. */
  function DigitsValue(s: string): nat
    requires AllDigits(s)
  {
    if |s| == 0 then 0 else DigitsValue(s[..|s| - 1]) * 10 + DigitValue(s[|s| - 1])
  }

  /** The decimal rendering of `n` without leading zeros, as `str(n)`. */
  function NatToDigits(n: nat): (s: string)
    ensures |s| >= 1 && AllDigits(s)
    ensures DigitsValue(s) == n
    ensures |s| > 1 ==> s[0] != '0'
  {
    if n < 10 then [DigitChar(n)]
    else
      var prefix := NatToDigits(n / 10);
      var s := prefix + [DigitChar(n % 10)];
      assert s[..|s| - 1] == prefix;
      s
  }

  /** A leading zero does not change the value of a digit string. */
  lemma {:induction false} LeadingZero(s: string)
    requires AllDigits(s)
    ensures AllDigits("0" + s) && DigitsValue("0" + s) == DigitsValue(s)
  {
    var z := "0" + s;
    if |s| > 0 {
      assert z[..|z| - 1] == "0" + s[..|s| - 1];
      LeadingZero(s[..|s| - 1]);
    }
  }

  // ---------------------------------------------------------------------
  // Python int() on a field
  // ---------------------------------------------------------------------

  /** `int(s)` for a plain integer literal: an optional sign and at least one
      digit. Anything else is a `ValueError`, modelled as `None`. */
  function ParseInt(s: string): Option<int> {
    if |s| > 0 && (s[0] == '+' || s[0] == '-') then
      var body := s[1..];
      if |body| > 0 && AllDigits(body) then
        var v: int := DigitsValue(body);
        Some(if s[0] == '-' then -v else v)
      else None
    else if |s| > 0 && AllDigits(s) then Some(DigitsValue(s))
    else None
  }

  /** `f"{n:02d}"`: the decimal rendering of `n`, zero-padded to two
      characters; a negative value keeps its sign and is at least two
      characters already. */
  function Pad2(n: int): (s: string)
    ensures |s| >= 2
    ensures ':' !in s
    ensures n >= 0 ==> AllDigits(s)
    ensures ParseInt(s) == Some(n)
  {
    if n < 0 then
      var s := "-" + NatToDigits(-n);
      assert s[1..] == NatToDigits(-n);
      s
    else if n < 10 then
      LeadingZero(NatToDigits(n));
      "0" + NatToDigits(n)
    else NatToDigits(n)
  }

  // ---------------------------------------------------------------------
  // str.split(sep) and its inverse
  // ---------------------------------------------------------------------

  /** `sep.join(parts)`. */
  function Join(parts: seq<string>, sep: char): string
    requires |parts| >= 1
  {
    if |parts| == 1 then parts[0] else parts[0] + [sep] + Join(parts[1..], sep)
  }

  lemma JoinExtendHead(c: char, parts: seq<string>, sep: char)
    requires |parts| >= 1
    ensures Join([[c] + parts[0]] + parts[1..], sep) == [c] + Join(parts, sep)
  {
    var q := [[c] + parts[0]] + parts[1..];
    if |parts| > 1 {
      assert q[1..] == parts[1..];
    }
  }

  /** `s.split(sep)`: the pieces of `s` between separators, in order; an
      empty string splits into one empty piece. */
  function Split(s: string, sep: char): (parts: seq<string>)
    ensures |parts| >= 1
    decreases |s|
  {
    if |s| == 0 then [""]
    else
      var rest := Split(s[1..], sep);
      if s[0] == sep then [""] + rest
      else [[s[0]] + rest[0]] + rest[1..]
  }

  /** The pieces are separator-free and joining them with the separator gives
      back the original text. */
  lemma {:induction false} SplitJoin(s: string, sep: char)
    ensures forall i :: 0 <= i < |Split(s, sep)| ==> sep !in Split(s, sep)[i]
    ensures Join(Split(s, sep), sep) == s
    decreases |s|
  {
    if |s| > 0 {
      var rest := Split(s[1..], sep);
      SplitJoin(s[1..], sep);
      if s[0] == sep {
        assert [sep] + s[1..] == s;
      } else {
        JoinExtendHead(s[0], rest, sep);
        assert [s[0]] + s[1..] == s;
        var parts := Split(s, sep);
        assert parts == [[s[0]] + rest[0]] + rest[1..];
        forall i | 0 <= i < |parts|
          ensures sep !in parts[i]
        {
          if i > 0 {
            assert parts[i] == rest[i];
          }
        }
      }
    }
  }

  /** A string with exactly one separator splits into the two sides of it. */
  lemma {:induction false} SplitPair(a: string, b: string, sep: char)
    requires sep !in a && sep !in b
    ensures Split(a + [sep] + b, sep) == [a, b]
  {
    var s := a + [sep] + b;
    if |a| == 0 {
      assert s[1..] == b;
      SplitNoSep(b, sep);
    } else {
      assert s[1..] == a[1..] + [sep] + b;
      SplitPair(a[1..], b, sep);
      assert [a[0]] + a[1..] == a;
    }
  }

  lemma {:induction false} SplitNoSep(s: string, sep: char)
    requires sep !in s
    ensures Split(s, sep) == [s]
  {
    if |s| > 0 {
      SplitNoSep(s[1..], sep);
      assert [s[0]] + s[1..] == s;
    }
  }

  // ---------------------------------------------------------------------
  // "HH:MM" <-> minutes
  // ---------------------------------------------------------------------

  /** `convert_time_to_minutes`: `None` where the source raises or catches
      a `ValueError`. */
  function ParseTime(s: string): Option<int> {
    var parts := Split(s, ':');
    if |parts| != 2 then None
    else
      match (ParseInt(parts[0]), ParseInt(parts[1]))
      case (Some(h), Some(m)) => Some(h * 60 + m)
      case _ => None
  }

  /** Position `i` holds the one and only colon of `s`. */
  predicate SoleColon(s: string, i: int) {
    0 <= i < |s| && s[i] == ':' && ':' !in s[..i] && ':' !in s[i + 1..]
  }

  /** Parsing succeeds exactly on text with one colon whose two sides are
      integers, and then yields 60 * hours + minutes; no range check is
      made on either field. */
  lemma ParseTimeCharacterized(s: string)
    ensures ParseTime(s).Some? <==>
              exists i :: SoleColon(s, i) && ParseInt(s[..i]).Some? && ParseInt(s[i + 1..]).Some?
    ensures forall i :: SoleColon(s, i) && ParseInt(s[..i]).Some? && ParseInt(s[i + 1..]).Some? ==>
              ParseTime(s) == Some(60 * ParseInt(s[..i]).value + ParseInt(s[i + 1..]).value)
  {
    forall i | SoleColon(s, i)
      ensures Split(s, ':') == [s[..i], s[i + 1..]]
    {
      assert s == s[..i] + [':'] + s[i + 1..];
      SplitPair(s[..i], s[i + 1..], ':');
    }
    var parts := Split(s, ':');
    SplitJoin(s, ':');
    if ParseTime(s).Some? {
      var i := |parts[0]|;
      assert parts[1..] == [parts[1]];
      assert Join(parts[1..], ':') == parts[1];
      assert s == parts[0] + [':'] + parts[1];
      assert s[..i] == parts[0] && s[i + 1..] == parts[1];
      assert SoleColon(s, i);
    }
  }

  /** A non-empty digit string is an integer literal with that value. */
  lemma ParseDigits(s: string)
    requires |s| > 0 && AllDigits(s)
    ensures ':' !in s
    ensures ParseInt(s) == Some(DigitsValue(s))
  {
    assert IsDigit(s[0]);
  }

  /** Two unsigned digit fields around a colon read as 60 * hours + minutes. */
  lemma ParseClock(h: string, m: string)
    requires |h| > 0 && AllDigits(h) && |m| > 0 && AllDigits(m)
    ensures ParseTime(h + ":" + m) == Some(60 * DigitsValue(h) + DigitsValue(m))
  {
    ParseDigits(h);
    ParseDigits(m);
    var s := h + ":" + m;
    assert s == h + [':'] + m;
    SplitPair(h, m, ':');
    assert Split(s, ':') == [h, m];
    assert ParseTime(s) == Some(DigitsValue(h) * 60 + DigitsValue(m));
  }

  /** The documented example: "08:30" is 510 minutes after midnight. */
  lemma ParseExample()
    ensures ParseTime("08:30") == Some(510)
  {
    ParseClock("08", "30");
    assert "08" + ":" + "30" == "08:30";
  }

  /** `int(t / 60)`: the quotient truncated toward zero. */
  function WholeHours(t: int): (h: int)
    ensures t >= 0 ==> 0 <= t - 60 * h < 60
    ensures t < 0 ==> -60 < t - 60 * h <= 0
  {
    if t >= 0 then t / 60 else -((-t) / 60)
  }

  /** A minute field `f"{m:02d}"` with 0 <= m < 60 is exactly two digits. */
  lemma MinuteField(m: int)
    requires 0 <= m < 60
    ensures |Pad2(m)| == 2 && AllDigits(Pad2(m)) && DigitsValue(Pad2(m)) == m
  {
    if m >= 10 {
      assert |NatToDigits(m / 10)| == 1;
    } else {
      LeadingZero(NatToDigits(m));
    }
  }

  /** `_convert_minutes_to_time`: hours (not wrapped at 24) and minutes,
      each padded to two characters and joined by a colon. */
  function FormatTime(t: int): string {
    Pad2(WholeHours(t)) + ":" + Pad2(t % 60)
  }

  /** The shape of a formatted time: one colon three characters from the
      end; after it two digits giving the floored minute 0..59; before it the
      hour field, at least two characters, reading as `int(t / 60)` and made
      of digits only when `t` is not negative. */
  lemma FormatTimeShape(t: int)
    ensures var s := FormatTime(t);
            && |s| >= 5 && SoleColon(s, |s| - 3)
            && AllDigits(s[|s| - 2..]) && DigitsValue(s[|s| - 2..]) == t % 60 && 0 <= t % 60 < 60
            && ParseInt(s[..|s| - 3]) == Some(WholeHours(t))
            && (t >= 0 ==> AllDigits(s[..|s| - 3]))
  {
    var hh := Pad2(WholeHours(t));
    var mm := Pad2(t % 60);
    MinuteField(t % 60);
    var s := hh + ":" + mm;
    assert s == FormatTime(t);
    assert s[..|s| - 3] == hh;
    assert s[|s| - 2..] == mm;
    assert s[|s| - 3 + 1..] == mm;
  }

  /** The minute count that the formatted form of `t` reads back as. */
  function ReadBack(t: int): int {
    if t < 0 && t % 60 != 0 then t + 60 else t
  }

  /** Reading back a formatted time gives the same minute count, except that
      a negative count that is not a whole number of hours comes back one
      hour later: `int(t / 60)` truncates toward zero while `t % 60` floors. */
  lemma {:induction false} FormatThenParse(t: int)
    ensures ParseTime(FormatTime(t)) == Some(if t < 0 && t % 60 != 0 then t + 60 else t)
  {
    var h := WholeHours(t);
    var m := t % 60;
    assert FormatTime(t) == Pad2(h) + [':'] + Pad2(m);
    SplitPair(Pad2(h), Pad2(m), ':');
    HoursAndMinutes(t);
  }

  /** The arithmetic behind FormatThenParse: truncated hours plus floored
      minutes lose nothing except on negative counts off the hour. */
  lemma HoursAndMinutes(t: int)
    ensures WholeHours(t) * 60 + t % 60 == if t < 0 && t % 60 != 0 then t + 60 else t
  {
    if t < 0 {
      var q := (-t) / 60;
      var r := (-t) % 60;
      assert -t == 60 * q + r;
      if r == 0 {
        assert t == 60 * (-q) + 0;
      } else {
        assert t == 60 * (-q - 1) + (60 - r);
      }
    }
  }

  /** FormatThenParse for every minute count at once, so that callers can
      apply it to whatever term they format. */
  lemma FormatThenParseEverywhere()
    ensures forall t :: ParseTime(FormatTime(t)) == Some(ReadBack(t))
  {
    forall t
      ensures ParseTime(FormatTime(t)) == Some(ReadBack(t))
    {
      FormatThenParse(t);
    }
  }

  /** For every non-negative minute count, including counts past midnight,
      formatting then parsing is the identity. */
  lemma RoundTrip(t: int)
    requires t >= 0
    ensures ParseTime(FormatTime(t)) == Some(t)
  {
    FormatThenParse(t);
  }
}
