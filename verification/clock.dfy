/** The text forms of dates and times: the zero-padded `YYYY-MM-DD` and
    `HH:MM` strings made from the local clock, the `%d:%d` reading of a time
    that decides lateness, and the positional `MM-YYYY` token the monthly
    report compares against. */
module Clock {
  import opened Records

  /** A reading of the local clock, as the broken-down time supplies it. */
  datatype Stamp = Stamp(year: int, month: int, day: int, hour: int, minute: int)

  /** The ranges the broken-down time guarantees, with a four-digit year. */
  predicate ValidStamp(s: Stamp) {
    && 0 <= s.year <= 9999
    && 1 <= s.month <= 12
    && 1 <= s.day <= 31
    && 0 <= s.hour <= 23
    && 0 <= s.minute <= 59
  }

  predicate IsDigit(c: char) {
    '0' <= c <= '9'
  }

  predicate AllDigits(s: string) {
    forall i :: 0 <= i < |s| ==> IsDigit(s[i])
  }

  function Pow10(n: nat): (p: nat)
    ensures p >= 1
  {
    if n == 0 then 1 else 10 * Pow10(n - 1)
  }

  function DigitChar(d: int): (c: char)
    requires 0 <= d <= 9
    ensures IsDigit(c) && c as int - '0' as int == d
  {
    ('0' as int + d) as char
  }

  /** The value of a run of decimal digits. */
  function DigitsValue(s: string): nat
    requires AllDigits(s)
  {
    if |s| == 0 then 0
    else 10 * DigitsValue(s[..|s| - 1]) + (s[|s| - 1] as int - '0' as int)
  }

  /** `n` printed with `%0<width>d`, for a value that fits the width. */
  function Pad(n: nat, width: nat): (s: string)
    requires n < Pow10(width)
    ensures |s| == width && AllDigits(s)
  {
    if width == 0 then "" else Pad(n / 10, width - 1) + [DigitChar(n % 10)]
  }

  /** Reading back a zero-padded number gives the number. */
  lemma {:induction false} PadValue(n: nat, width: nat)
    requires n < Pow10(width)
    ensures DigitsValue(Pad(n, width)) == n
  {
    if width > 0 {
      var s := Pad(n, width);
      PadValue(n / 10, width - 1);
      assert s[..|s| - 1] == Pad(n / 10, width - 1);
    }
  }

  /** `YYYY-MM-DD`, as the clock routine prints the date. */
  function FormatDate(s: Stamp): (d: string)
    requires ValidStamp(s)
    ensures |d| == 10 && d[4] == '-' && d[7] == '-'
  {
    Pad(s.year, 4) + "-" + Pad(s.month, 2) + "-" + Pad(s.day, 2)
  }

  /** `HH:MM`, as the clock routine prints the time. */
  function FormatTime(hour: nat, minute: nat): (t: string)
    requires hour < 100 && minute < 100
    ensures |t| == 5 && t[2] == ':'
  {
    Pad(hour, 2) + ":" + Pad(minute, 2)
  }

  /** Length of the run of digits the text starts with. */
  function DigitRun(s: string): (k: nat)
    ensures k <= |s| && AllDigits(s[..k])
    ensures k == |s| || !IsDigit(s[k])
  {
    if |s| > 0 && IsDigit(s[0]) then
      var k := 1 + DigitRun(s[1..]);
      assert forall i :: 1 <= i < k ==> s[..k][i] == s[1..][..k - 1][i - 1];
      k
    else 0
  }

  /** Reading `%d:%d` from a time text: a number, a colon, a number. */
  function ParseTime(t: string): Option<(int, int)> {
    var k := DigitRun(t);
    if k == 0 || k == |t| || t[k] != ':' then None
    else
      var rest := t[k + 1..];
      var k2 := DigitRun(rest);
      if k2 == 0 then None
      else Some((DigitsValue(t[..k]), DigitsValue(rest[..k2])))
  }

  /** The printed time reads back as the hour and minute it was printed from. */
  lemma TimeRoundTrip(hour: nat, minute: nat)
    requires hour < 100 && minute < 100
    ensures ParseTime(FormatTime(hour, minute)) == Some((hour, minute))
  {
    var t := FormatTime(hour, minute);
    assert t[..2] == Pad(hour, 2);
    assert t[3..] == Pad(minute, 2);
    assert DigitRun(t) == 2 by {
      assert IsDigit(t[0]) && IsDigit(t[1]) && !IsDigit(t[2]);
      assert t[1..][1..] == t[2..];
    }
    var rest := t[3..];
    assert DigitRun(rest) == 2 by {
      assert IsDigit(rest[0]) && IsDigit(rest[1]);
      assert rest[1..][1..] == [];
    }
    assert rest[..2] == rest;
    PadValue(hour, 2);
    PadValue(minute, 2);
  }

  /** After 08:00 counts as late; 08:00 itself does not. */
  predicate LateAt(hour: int, minute: int) {
    hour > 8 || (hour == 8 && minute > 0)
  }

  /** Lateness decided from the printed time. A time text that does not read
      as `%d:%d` is treated as on time. */
  predicate LateByTimeText(t: string) {
    match ParseTime(t)
    case Some((h, m)) => LateAt(h, m)
    case None => false
  }

  /** The `MM-YYYY` token the monthly report builds from a record's date by
      position, read as a C string: characters 5-6, a hyphen, characters
      0-3. A copy that meets the date's terminator stops there, so a date
      of six characters gives just its character 5 and one of five
      characters the empty token. A date shorter than five characters
      makes the copy start past the terminator, on bytes the text does not
      determine: no token. */
  function MonthToken(date: string): (tok: Option<string>)
    ensures |date| >= 5 <==> tok.Some?
    ensures |date| >= 7 ==>
      && tok.Some?
      && |tok.value| == 7 && tok.value[2] == '-'
      && tok.value[..2] == date[5..7] && tok.value[3..] == date[..4]
    ensures |date| == 6 ==> tok == Some([date[5]])
    ensures |date| == 5 ==> tok == Some("")
  {
    if |date| >= 7 then Some(date[5..7] + "-" + date[..4])
    else if |date| == 6 then Some([date[5]])
    else if |date| == 5 then Some("")
    else None
  }

  /** The period a user types for the monthly report, `MM-YYYY`. */
  function FormatPeriod(month: nat, year: nat): string
    requires month < 100 && year < 10000
  {
    Pad(month, 2) + "-" + Pad(year, 4)
  }

  /** The token of a printed date is the period of its month and year. */
  lemma MonthTokenOfDate(s: Stamp)
    requires ValidStamp(s)
    ensures MonthToken(FormatDate(s)) == Some(FormatPeriod(s.month, s.year))
  {
    var d := FormatDate(s);
    assert d[5..7] == Pad(s.month, 2);
    assert d[..4] == Pad(s.year, 4);
  }

  /** A printed date falls in a typed period exactly when month and year agree. */
  lemma {:induction false} PeriodMatch(s: Stamp, month: nat, year: nat)
    requires ValidStamp(s) && month < 100 && year < 10000
    ensures MonthToken(FormatDate(s)) == Some(FormatPeriod(month, year))
      <==> s.month == month && s.year == year
  {
    MonthTokenOfDate(s);
    var p := FormatPeriod(s.month, s.year);
    var q := FormatPeriod(month, year);
    if p == q {
      assert p[..2] == Pad(s.month, 2) && q[..2] == Pad(month, 2);
      assert p[3..] == Pad(s.year, 4) && q[3..] == Pad(year, 4);
      PadValue(s.month, 2);
      PadValue(month, 2);
      PadValue(s.year, 4);
      PadValue(year, 4);
    }
  }

  /** Two clock readings print the same date only on the same calendar day. */
  lemma {:induction false} FormatDateInjective(s: Stamp, u: Stamp)
    requires ValidStamp(s) && ValidStamp(u)
    ensures FormatDate(s) == FormatDate(u) <==>
      s.year == u.year && s.month == u.month && s.day == u.day
  {
    var a := FormatDate(s);
    var b := FormatDate(u);
    if a == b {
      assert a[..4] == Pad(s.year, 4) && b[..4] == Pad(u.year, 4);
      assert a[5..7] == Pad(s.month, 2) && b[5..7] == Pad(u.month, 2);
      assert a[8..] == Pad(s.day, 2) && b[8..] == Pad(u.day, 2);
      PadValue(s.year, 4);
      PadValue(u.year, 4);
      PadValue(s.month, 2);
      PadValue(u.month, 2);
      PadValue(s.day, 2);
      PadValue(u.day, 2);
    }
  }
}
