/**
 * Durations and their `MM:SS` rendering (`format_duration`, src/main.rs:253-258).
 *
 * `format_duration` keeps only whole seconds, splits them into minutes and
 * seconds, and prints both with `{:02}`: at least two digits, padded with
 * leading zeros. The width is a minimum, so a minute count of 100 or more
 * prints with three or more digits.
 */
module Durations {
  import opened Wrappers

  /** The sub-second part of a `std::time::Duration`, always below one second. */
  type Nanos = n: nat | n < 1_000_000_000

  /** `std::time::Duration`: whole seconds and nanoseconds. */
  datatype Duration = Duration(secs: nat, nanos: Nanos)

  /** `Duration::default()`, which `unwrap_or_default` falls back to. */
  const Zero: Duration := Duration(0, 0)

  /** Whole minutes and the seconds left over, from a count of whole seconds. */
  function MinutesAndSeconds(totalSecs: nat): (r: (nat, nat))
    ensures r.1 < 60
    ensures r.0 * 60 + r.1 == totalSecs
  {
    (totalSecs / 60, totalSecs % 60)
  }

  // ---------------------------------------------------------------- decimal digits

  predicate IsDigit(c: char) {
    '0' <= c <= '9'
  }

  /** Every character of `s[lo..hi]` is a decimal digit. */
  predicate DigitsIn(s: string, lo: nat, hi: nat)
    requires lo <= hi <= |s|
  {
    forall i :: lo <= i < hi ==> IsDigit(s[i])
  }

  function DigitChar(d: nat): (c: char)
    requires d < 10
    ensures IsDigit(c) && DigitValue(c) == d
  {
    ('0' as int + d) as char
  }

  function DigitValue(c: char): (d: nat)
    requires IsDigit(c)
    ensures d < 10
  {
    c as int - '0' as int
  }

  /** The number that the digits `s[lo..hi]` denote, most significant first. */
  function ValueIn(s: string, lo: nat, hi: nat): nat
    requires lo <= hi <= |s| && DigitsIn(s, lo, hi)
    decreases hi - lo
  {
    if lo == hi then 0 else ValueIn(s, lo, hi - 1) * 10 + DigitValue(s[hi - 1])
  }

  /** `n` printed in decimal with `{}`: at least one digit, no superfluous leading zero. */
  function Decimal(n: nat): (s: string)
    ensures 1 <= |s| && DigitsIn(s, 0, |s|)
    ensures n < 100 ==> |s| <= 2
  {
    if n < 10 then [DigitChar(n)] else Decimal(n / 10) + [DigitChar(n % 10)]
  }

  /** `k` zero characters. */
  function Zeros(k: nat): (z: string)
    ensures |z| == k && forall i :: 0 <= i < k ==> z[i] == '0'
  {
    if k == 0 then [] else ['0'] + Zeros(k - 1)
  }

  /** The `{:02}` width rule: leading '0's up to `width` characters; a longer string is kept whole. */
  function PadZeros(s: string, width: nat): (r: string)
    ensures |r| == if |s| < width then width else |s|
    ensures forall i :: 0 <= i < |r| - |s| ==> r[i] == '0'
    ensures forall i :: 0 <= i < |s| ==> r[|r| - |s| + i] == s[i]
  {
    if |s| < width then Zeros(width - |s|) + s else s
  }

  /** One `{:02}` field: `n` in decimal, at least two digits wide. */
  function Field02(n: nat): (s: string)
    ensures |s| >= 2 && DigitsIn(s, 0, |s|)
    ensures n < 100 ==> |s| == 2
  {
    PaddedDigits(Decimal(n), 2);
    PadZeros(Decimal(n), 2)
  }

  /** `format!("{:02}:{:02}", minutes, seconds)` for a seconds count below 60. */
  function Clock(minutes: nat, seconds: nat): (s: string)
    requires seconds < 60
    ensures |s| >= 5 && s[|s| - 3] == ':'
    ensures DigitsIn(s, 0, |s| - 3) && DigitsIn(s, |s| - 2, |s|)
  {
    ClockShape(Field02(minutes), Field02(seconds));
    Field02(minutes) + ":" + Field02(seconds)
  }

  /**
   * `format_duration`: whole minutes, a colon, then the seconds, both zero-padded
   * to two digits; reading the text back gives the duration's whole seconds.
   */
  function FormatDuration(d: Duration): (s: string)
    ensures |s| >= 5 && s[|s| - 3] == ':'
    ensures DigitsIn(s, 0, |s| - 3) && DigitsIn(s, |s| - 2, |s|)
    ensures ParseClock(s) == Some(d.secs)
  {
    var ms := MinutesAndSeconds(d.secs);
    ClockRoundTrip(ms.0, ms.1);
    Clock(ms.0, ms.1)
  }

  /**
   * Reads a clock string back: at least two digits of minutes, a colon, and
   * exactly two digits of seconds below 60. The partner of FormatDuration.
   */
  function ParseClock(s: string): Option<nat> {
    if |s| >= 5 && s[|s| - 3] == ':' && DigitsIn(s, 0, |s| - 3) && DigitsIn(s, |s| - 2, |s|)
       && ValueIn(s, |s| - 2, |s|) < 60
    then Some(ValueIn(s, 0, |s| - 3) * 60 + ValueIn(s, |s| - 2, |s|))
    else None
  }

  // ---------------------------------------------------------------- lemmas

  lemma PaddedDigits(s: string, width: nat)
    requires DigitsIn(s, 0, |s|)
    ensures DigitsIn(PadZeros(s, width), 0, |PadZeros(s, width)|)
  {
    var r := PadZeros(s, width);
    forall i | 0 <= i < |r| ensures IsDigit(r[i]) {
      if i >= |r| - |s| {
        assert r[|r| - |s| + (i - (|r| - |s|))] == s[i - (|r| - |s|)];
      }
    }
  }

  /** Digits read the same inside a longer string that starts with them. */
  lemma {:induction false} ValueInPrefix(a: string, b: string, hi: nat)
    requires hi <= |a| && DigitsIn(a, 0, hi)
    ensures DigitsIn(a + b, 0, hi) && ValueIn(a + b, 0, hi) == ValueIn(a, 0, hi)
  {
    assert DigitsIn(a + b, 0, hi) by {
      forall i | 0 <= i < hi ensures IsDigit((a + b)[i]) { assert (a + b)[i] == a[i]; }
    }
    if hi > 0 {
      ValueInPrefix(a, b, hi - 1);
      assert (a + b)[hi - 1] == a[hi - 1];
    }
  }

  /** Digits read the same inside a longer string that ends with them. */
  lemma {:induction false} ValueInSuffix(a: string, b: string, hi: nat)
    requires hi <= |b| && DigitsIn(b, 0, hi)
    ensures DigitsIn(a + b, |a|, |a| + hi) && ValueIn(a + b, |a|, |a| + hi) == ValueIn(b, 0, hi)
  {
    assert DigitsIn(a + b, |a|, |a| + hi) by {
      forall i | |a| <= i < |a| + hi ensures IsDigit((a + b)[i]) { assert (a + b)[i] == b[i - |a|]; }
    }
    if hi > 0 {
      ValueInSuffix(a, b, hi - 1);
      assert (a + b)[|a| + hi - 1] == b[hi - 1];
    }
  }

  /** A leading '0' does not count: reading from index 0 or from index 1 gives the same value. */
  lemma {:induction false} ValueInLeadingZero(s: string, hi: nat)
    requires 1 <= hi <= |s| && s[0] == '0' && DigitsIn(s, 0, hi)
    ensures ValueIn(s, 0, hi) == ValueIn(s, 1, hi)
  {
    if hi > 1 {
      ValueInLeadingZero(s, hi - 1);
    }
  }

  /** Where the fields of a clock string sit. */
  lemma ClockShape(mm: string, ss: string)
    requires DigitsIn(mm, 0, |mm|) && |ss| == 2 && DigitsIn(ss, 0, 2)
    ensures var s := mm + ":" + ss;
      s[|s| - 3] == ':' && DigitsIn(s, 0, |s| - 3) && DigitsIn(s, |s| - 2, |s|)
  {
    var s := mm + ":" + ss;
    assert s == (mm + ":") + ss;
    ValueInPrefix(mm, ":" + ss, |mm|);
    ValueInSuffix(mm + ":", ss, 2);
  }

  /** Reading back the decimal rendering of a number gives the number. */
  lemma {:induction false} DecimalRoundTrip(n: nat)
    ensures ValueIn(Decimal(n), 0, |Decimal(n)|) == n
  {
    if n >= 10 {
      var prefix := Decimal(n / 10);
      DecimalRoundTrip(n / 10);
      ValueInPrefix(prefix, [DigitChar(n % 10)], |prefix|);
    }
  }

  /** Leading zeros keep a digit string's value. */
  lemma {:induction false} ZerosValue(k: nat, s: string)
    requires DigitsIn(s, 0, |s|)
    ensures DigitsIn(Zeros(k) + s, 0, k + |s|) && ValueIn(Zeros(k) + s, 0, k + |s|) == ValueIn(s, 0, |s|)
  {
    var z := Zeros(k) + s;
    assert DigitsIn(z, 0, |z|) by {
      forall i | 0 <= i < |z| ensures IsDigit(z[i]) {
        if i >= k { assert z[i] == s[i - k]; }
      }
    }
    if k > 0 {
      var t := Zeros(k - 1) + s;
      ZerosValue(k - 1, s);
      assert z == ['0'] + t;
      assert |z| == k + |s| == 1 + |t|;
      ValueInSuffix(['0'], t, |t|);
      ValueInLeadingZero(z, |z|);
      assert ValueIn(z, 1, |z|) == ValueIn(t, 0, |t|);
      assert ValueIn(z, 0, k + |s|) == ValueIn(z, 0, |z|);
    } else {
      assert z == s;
    }
  }

  /** Zero padding keeps a digit string's value. */
  lemma PadZerosValue(s: string, width: nat)
    requires DigitsIn(s, 0, |s|)
    ensures var r := PadZeros(s, width);
      DigitsIn(r, 0, |r|) && ValueIn(r, 0, |r|) == ValueIn(s, 0, |s|)
  {
    if |s| < width {
      ZerosValue(width - |s|, s);
    }
  }

  /** A `{:02}` field reads back as the number it prints. */
  lemma Field02Value(n: nat)
    ensures ValueIn(Field02(n), 0, |Field02(n)|) == n
  {
    DecimalRoundTrip(n);
    PadZerosValue(Decimal(n), 2);
  }

  /** A clock string made of two digit fields reads back as minutes * 60 + seconds. */
  lemma ParseClockFields(mm: string, ss: string, minutes: nat, seconds: nat)
    requires |mm| >= 2 && DigitsIn(mm, 0, |mm|) && ValueIn(mm, 0, |mm|) == minutes
    requires |ss| == 2 && DigitsIn(ss, 0, 2) && ValueIn(ss, 0, 2) == seconds < 60
    ensures ParseClock(mm + ":" + ss) == Some(minutes * 60 + seconds)
  {
    var s := mm + ":" + ss;
    assert s == mm + (":" + ss);
    ClockShape(mm, ss);
    ValueInPrefix(mm, ":" + ss, |mm|);
    ValueInSuffix(mm + ":", ss, 2);
    assert |s| - 3 == |mm| && |s| - 2 == |mm + ":"|;
    assert ValueIn(s, |s| - 2, |s|) == seconds;
    assert ValueIn(s, 0, |s| - 3) == minutes;
  }

  /** A clock built from a minute count and a seconds count below 60 reads back as their total. */
  lemma ClockRoundTrip(minutes: nat, seconds: nat)
    requires seconds < 60
    ensures ParseClock(Clock(minutes, seconds)) == Some(minutes * 60 + seconds)
  {
    Field02Value(minutes);
    Field02Value(seconds);
    ParseClockFields(Field02(minutes), Field02(seconds), minutes, seconds);
  }

  /** `{}` writes no superfluous leading zero: a positive number's first digit is not '0'. */
  lemma {:induction false} DecimalNoLeadingZero(n: nat)
    ensures n >= 1 ==> Decimal(n)[0] != '0'
    ensures n >= 10 ==> |Decimal(n)| >= 2
  {
    if n >= 10 {
      DecimalNoLeadingZero(n / 10);
      assert Decimal(n)[0] == Decimal(n / 10)[0];
    } else if n >= 1 {
      assert DigitValue(Decimal(n)[0]) == n;
    }
  }

  /** `{:02}` pads only numbers below ten, with exactly one '0'; wider numbers are printed as they are. */
  lemma Field02Padding(n: nat)
    ensures n < 10 ==> |Field02(n)| == 2 && Field02(n)[0] == '0'
    ensures n >= 10 ==> Field02(n) == Decimal(n) && Field02(n)[0] != '0'
  {
    DecimalNoLeadingZero(n);
  }

  /**
   * The minute field is exactly as wide as `{:02}` makes it: five characters in
   * all below 100 minutes, and a leading '0' only below ten minutes.
   */
  lemma FormatDurationWidth(d: Duration)
    ensures d.secs < 6000 ==> |FormatDuration(d)| == 5
    ensures FormatDuration(d)[0] == '0' <==> d.secs < 600
  {
    var ms := MinutesAndSeconds(d.secs);
    var mm := Field02(ms.0);
    Field02Padding(ms.0);
    assert FormatDuration(d) == mm + ":" + Field02(ms.1);
    assert FormatDuration(d)[0] == mm[0];
    assert ms.0 < 10 <==> d.secs < 600;
  }

  /** Two durations print the same exactly when they have the same whole seconds. */
  lemma FormatDurationInjective(a: Duration, b: Duration)
    ensures FormatDuration(a) == FormatDuration(b) <==> a.secs == b.secs
  {
    if FormatDuration(a) == FormatDuration(b) {
      assert ParseClock(FormatDuration(a)) == Some(a.secs);
      assert ParseClock(FormatDuration(b)) == Some(b.secs);
    }
  }

  /** The sub-second part never shows: format_duration reads only `as_secs`. */
  lemma FormatDurationIgnoresNanos(d: Duration, nanos: Nanos)
    ensures FormatDuration(d.(nanos := nanos)) == FormatDuration(d)
  {
  }

  /** Worked readings: no time, part of a second, an hour and a bit, and a minute count wider than two digits. */
  lemma FormatDurationOfZero()
    ensures FormatDuration(Zero) == "00:00"
  {
    assert MinutesAndSeconds(0) == (0, 0);
    assert Field02(0) == "00" by { assert PadZeros("0", 2) == "00"; }
    assert Clock(0, 0) == "00:00";
  }

  lemma FormatDurationDropsFraction()
    ensures FormatDuration(Duration(59, 999_999_999)) == "00:59"
  {
    assert MinutesAndSeconds(59) == (0, 59);
    assert Field02(0) == "00" by { assert PadZeros("0", 2) == "00"; }
    assert Field02(59) == "59" by { assert Decimal(59) == "59"; }
    assert Clock(0, 59) == "00:59";
  }

  lemma FormatDurationOfHour()
    ensures FormatDuration(Duration(3725, 0)) == "62:05"
  {
    assert MinutesAndSeconds(3725) == (62, 5);
    assert Field02(62) == "62" by { assert Decimal(62) == "62"; }
    assert Field02(5) == "05" by { assert PadZeros("5", 2) == "05"; }
    assert Clock(62, 5) == "62:05";
  }

  lemma FormatDurationWideMinutes()
    ensures FormatDuration(Duration(6000, 0)) == "100:00"
  {
    assert MinutesAndSeconds(6000) == (100, 0);
    assert Field02(0) == "00" by { assert PadZeros("0", 2) == "00"; }
    assert Field02(100) == "100" by {
      assert Decimal(100) == "100" by { assert Decimal(10) == "10"; }
    }
    assert Clock(100, 0) == "100:00";
  }
}
