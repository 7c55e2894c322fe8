/** The two time-string helpers of the desktop front end: `time_to_minutes`
    reads "HH:MM" into minutes from midnight, rejecting an empty string, a
    string with no colon, a part that `int()` does not accept, and an hour or
    minute out of range; `minutes_to_time` writes minutes back as two
    zero-padded fields. */
module TimeFormat {
  import opened Wrappers
  import opened Text

  datatype TimeError = EmptyTime | NotHHMM | NotANumber | OutOfRange

  predicate IsDigit(c: char) {
    '0' <= c <= '9'
  }

  function DigitVal(c: char): nat
    requires IsDigit(c)
  {
    c as int - '0' as int
  }

  function DigitChar(d: nat): (c: char)
    requires d < 10
    ensures IsDigit(c) && DigitVal(c) == d
  {
    ('0' as int + d) as char
  }

  predicate AllDigits(s: string) {
    forall i :: 0 <= i < |s| ==> IsDigit(s[i])
  }

  /** The value of a string of decimal digits, most significant first. */
  function DigitsValue(s: string): nat
    requires AllDigits(s)
  {
    if s == [] then 0 else 10 * DigitsValue(s[..|s| - 1]) + DigitVal(s[|s| - 1])
  }

  /** `int(s)` on ASCII input: surrounding white space is ignored, then an
      optional sign and at least one digit; anything else is rejected. */
  function ParseInt(s: string): Option<int> {
    var t := Strip(s);
    if t != [] && (t[0] == '+' || t[0] == '-') then
      var d := t[1..];
      if d != [] && AllDigits(d) then
        var v: int := DigitsValue(d);
        Some(if t[0] == '-' then -v else v)
      else None
    else if t != [] && AllDigits(t) then Some(DigitsValue(t))
    else None
  }

  /** The index of the first occurrence of `c`: where `split(c, 1)` cuts. */
  function FirstIndex(s: string, c: char): (i: nat)
    requires c in s
    ensures i < |s| && s[i] == c && c !in s[..i]
  {
    if s[0] == c then 0
    else
      assert c in s[1..] by {
        var k :| 0 <= k < |s| && s[k] == c;
        assert s[1..][k - 1] == c;
      }
      var i := 1 + FirstIndex(s[1..], c);
      assert s[..i] == [s[0]] + s[1..][..i - 1];
      i
  }

  /** `time_to_minutes`. */
  function TimeToMinutes(hhmm: string): (r: Result<int, TimeError>)
    ensures r.Ok? ==> 0 <= r.value < 24 * 60
    ensures r == Err(EmptyTime) <==> Strip(hhmm) == []
    ensures r == Err(NotHHMM) <==> Strip(hhmm) != [] && ':' !in Strip(hhmm)
  {
    var t := Strip(hhmm);
    if t == [] then Err(EmptyTime)
    else if ':' !in t then Err(NotHHMM)
    else
      var i := FirstIndex(t, ':');
      Combine(ParseInt(t[..i]), ParseInt(t[i + 1..]))
  }

  /** The checks `time_to_minutes` makes once the text is split: both parts
      numbers, then the hour and the minute in range. */
  function Combine(h: Option<int>, m: Option<int>): (r: Result<int, TimeError>)
    ensures r.Ok? ==> 0 <= r.value < 24 * 60
    ensures r == Err(NotANumber) <==> h.None? || m.None?
    ensures r.Ok? <==> h.Some? && m.Some? && 0 <= h.value < 24 && 0 <= m.value < 60
    ensures r == Err(OutOfRange) <==> h.Some? && m.Some? && !(0 <= h.value < 24 && 0 <= m.value < 60)
    ensures r.Ok? ==> r.value == h.value * 60 + m.value
  {
    if h.None? || m.None? then Err(NotANumber)
    else if !(0 <= h.value < 24 && 0 <= m.value < 60) then Err(OutOfRange)
    else Ok(h.value * 60 + m.value)
  }

  /** The decimal digits of `n`, without leading zeros. */
  function Digits(n: nat): (r: string)
    ensures r != [] && AllDigits(r)
  {
    if n < 10 then [DigitChar(n)] else Digits(n / 10) + [DigitChar(n % 10)]
  }

  /** `f"{n:02d}"`: at least two characters, zero-padded after the sign. */
  function Pad2(n: int): string {
    if n < 0 then "-" + Digits(-n)
    else if n < 10 then "0" + Digits(n)
    else Digits(n)
  }

  /** `minutes_to_time`: floor division and the non-negative remainder. */
  function MinutesToTime(mins: int): string {
    Pad2(mins / 60) + ":" + Pad2(mins % 60)
  }

  /** Writing a number in digits and reading it back gives the number. */
  lemma {:induction false} DigitsValueOf(n: nat)
    ensures DigitsValue(Digits(n)) == n
  {
    if n >= 10 {
      DigitsValueOf(n / 10);
      var r := Digits(n);
      assert r[..|r| - 1] == Digits(n / 10);
    }
  }

  /** A string that starts and ends with a digit or a minus sign is its own `strip()`. */
  lemma NoSpaceEnds(s: string)
    requires s != [] ==> (IsDigit(s[0]) || s[0] == '-') && IsDigit(s[|s| - 1])
    ensures Strip(s) == s
  {
    StripTrimmed(s);
  }

  /** `int()` reads back what `f"{n:02d}"` writes. */
  lemma ParsePad2(n: int)
    ensures ParseInt(Pad2(n)) == Some(n)
    ensures ':' !in Pad2(n)
  {
    var s := Pad2(n);
    if n < 0 {
      assert s == "-" + Digits(-n);
      ParseNegative(-n);
    } else if n < 10 {
      assert s == ['0', DigitChar(n)];
      ParseTwoDigits(s);
    } else {
      assert s == Digits(n);
      ParseDigits(n);
    }
  }

  /** `int()` reads back the decimal digits of a natural number. */
  lemma ParseDigits(n: nat)
    ensures ParseInt(Digits(n)) == Some(n)
  {
    var s := Digits(n);
    DigitsValueOf(n);
    NoSpaceEnds(s);
    assert IsDigit(s[0]);
  }

  /** `int()` reads a minus sign followed by digits as the negative number. */
  lemma ParseNegative(k: nat)
    ensures ParseInt("-" + Digits(k)) == Some(-(k as int))
  {
    var s := "-" + Digits(k);
    DigitsValueOf(k);
    NoSpaceEnds(s);
    assert s[1..] == Digits(k);
  }

  /** A two-digit number pads to its two digits. */
  lemma Pad2TwoDigits(n: nat)
    requires n < 100
    ensures Pad2(n) == [DigitChar(n / 10), DigitChar(n % 10)]
  {
    if n >= 10 {
      assert Digits(n / 10) == [DigitChar(n / 10)];
    }
  }

  /** A colon anywhere in the text makes `int()` reject it. */
  lemma ColonNotANumber(s: string)
    requires ':' in s
    ensures ParseInt(s) == None
  {
    var k :| 0 <= k < |s| && s[k] == ':';
    StripKeeps(s, k);
    var t := Strip(s);
    var j :| 0 <= j < |t| && t[j] == ':';
    if t[0] == '+' || t[0] == '-' {
      assert t[1..][j - 1] == ':';
    }
  }

  /** A string made of two parts around its first colon, with no white space
      at its ends, is judged on what `int()` makes of the two parts. */
  lemma TimeOfParts(a: string, b: string)
    requires ':' !in a
    requires Strip(a + ":" + b) == a + ":" + b
    ensures TimeToMinutes(a + ":" + b) == Combine(ParseInt(a), ParseInt(b))
  {
    var s := a + ":" + b;
    assert s[|a|] == ':';
    assert s[..|a|] == a;
    assert FirstIndex(s, ':') == |a|;
    assert s[|a| + 1..] == b;
  }

  /** Any number of minutes written by `minutes_to_time` is read back by
      `time_to_minutes` when it falls within one day, and is rejected as out of
      range otherwise. */
  lemma MinutesRoundTrip(mins: int)
    ensures TimeToMinutes(MinutesToTime(mins)) == if 0 <= mins < 24 * 60 then Ok(mins) else Err(OutOfRange)
  {
    ReadBackFields(mins);
    CombineOfDay(mins);
  }

  /** The range checks accept the hour and minute of `mins` exactly when
      `mins` falls within one day. */
  lemma CombineOfDay(mins: int)
    ensures Combine(Some(mins / 60), Some(mins % 60)) == if 0 <= mins < 24 * 60 then Ok(mins) else Err(OutOfRange)
  {
    DayRange(mins);
  }

  /** `time_to_minutes` reads back the hour and the minute that
      `minutes_to_time` writes. */
  lemma ReadBackFields(mins: int)
    ensures TimeToMinutes(MinutesToTime(mins)) == Combine(Some(mins / 60), Some(mins % 60))
  {
    var h, m := mins / 60, mins % 60;
    var a, b := Pad2(h), Pad2(m);
    ParsePad2(h);
    ParsePad2(m);
    var s := a + ":" + b;
    assert s[0] == a[0] && s[|s| - 1] == b[|b| - 1];
    NoSpaceEnds(s);
    assert MinutesToTime(mins) == s;
    TimeOfParts(a, b);
  }

  /** The hour `minutes_to_time` writes is below 24 exactly when the minutes
      fall within one day. */
  lemma DayRange(mins: int)
    ensures 0 <= mins % 60 < 60
    ensures (0 <= mins / 60 < 24) <==> (0 <= mins < 24 * 60)
    ensures mins / 60 * 60 + mins % 60 == mins
  {
  }

  /** A well-formed "HH:MM" string: two digits, a colon, two digits, hour
      below 24 and minute below 60. */
  predicate IsHHMM(s: string) {
    && |s| == 5 && s[2] == ':'
    && IsDigit(s[0]) && IsDigit(s[1]) && IsDigit(s[3]) && IsDigit(s[4])
    && 10 * DigitVal(s[0]) + DigitVal(s[1]) < 24
    && 10 * DigitVal(s[3]) + DigitVal(s[4]) < 60
  }

  /** The minutes from midnight a well-formed "HH:MM" string denotes. */
  function ClockValue(s: string): int
    requires IsHHMM(s)
  {
    (10 * DigitVal(s[0]) + DigitVal(s[1])) * 60 + 10 * DigitVal(s[3]) + DigitVal(s[4])
  }

  /** `int()` of two digits. */
  lemma ParseTwoDigits(x: string)
    requires |x| == 2 && IsDigit(x[0]) && IsDigit(x[1])
    ensures ParseInt(x) == Some(10 * DigitVal(x[0]) + DigitVal(x[1]))
    ensures x == [DigitChar(DigitVal(x[0])), DigitChar(DigitVal(x[1]))]
  {
    NoSpaceEnds(x);
    assert x[..1] == [x[0]];
    assert DigitsValue([x[0]]) == DigitVal(x[0]) by {
      assert [x[0]][..0] == [];
    }
  }

  /** Minutes within one day are written as their hour and minute. */
  lemma MinutesOfDay(h: nat, m: nat)
    requires h < 24 && m < 60
    ensures MinutesToTime(h * 60 + m) == Pad2(h) + ":" + Pad2(m)
  {
    assert (h * 60 + m) / 60 == h && (h * 60 + m) % 60 == m;
  }

  /** A well-formed "HH:MM" string is read and written back unchanged. */
  lemma TimeRoundTrip(s: string)
    requires IsHHMM(s)
    ensures TimeToMinutes(s).Ok?
    ensures MinutesToTime(TimeToMinutes(s).value) == s
  {
    ReadHHMM(s);
    WriteHHMM(s);
  }

  /** `time_to_minutes` of a well-formed "HH:MM" string. */
  lemma ReadHHMM(s: string)
    requires IsHHMM(s)
    ensures TimeToMinutes(s) == Ok(ClockValue(s))
  {
    var a, b := s[..2], s[3..];
    assert s == a + ":" + b;
    NoSpaceEnds(s);
    ParseTwoDigits(a);
    ParseTwoDigits(b);
    TimeOfParts(a, b);
  }

  /** `minutes_to_time` writes the hour and minute of a well-formed "HH:MM"
      string back as that string. */
  lemma WriteHHMM(s: string)
    requires IsHHMM(s)
    ensures MinutesToTime(ClockValue(s)) == s
  {
    var a, b := s[..2], s[3..];
    var h, m := 10 * DigitVal(s[0]) + DigitVal(s[1]), 10 * DigitVal(s[3]) + DigitVal(s[4]);
    MinutesOfDay(h, m);
    PadOfDigits(a);
    PadOfDigits(b);
    assert s == a + ":" + b;
  }

  /** Two digits below 100 pad back to themselves. */
  lemma PadOfDigits(x: string)
    requires |x| == 2 && IsDigit(x[0]) && IsDigit(x[1])
    ensures Pad2(10 * DigitVal(x[0]) + DigitVal(x[1])) == x
  {
    var d, e := DigitVal(x[0]), DigitVal(x[1]);
    assert (10 * d + e) / 10 == d && (10 * d + e) % 10 == e;
    Pad2TwoDigits(10 * d + e);
    ParseTwoDigits(x);
  }

  /** A second colon ends up in the minute part, which `int()` rejects. */
  lemma SecondColonRejected(hhmm: string)
    requires var t := Strip(hhmm); ':' in t && ':' in t[FirstIndex(t, ':') + 1..]
    ensures TimeToMinutes(hhmm) == Err(NotANumber)
  {
    var t := Strip(hhmm);
    ColonNotANumber(t[FirstIndex(t, ':') + 1..]);
  }
}
