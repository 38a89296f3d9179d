/** SubRip (SRT) timestamps `HH:MM:SS,mmm` computed from a whole number of
    milliseconds by three `divmod` carries (milliseconds to seconds, seconds to
    minutes, minutes to hours), then printed zero-padded. Hours are not
    bounded: past 99 hours the hour field simply grows wider. */
module Timestamp {
  import opened Wrappers
  import opened Strings

  const MillisPerSecond: nat := 1000
  const MillisPerMinute: nat := 60_000
  const MillisPerHour: nat := 3_600_000

  /** The four fields printed in a timestamp. */
  datatype Clock = Clock(hours: nat, minutes: nat, seconds: nat, millis: nat)

  /** Minutes and seconds below 60, milliseconds below 1000. */
  predicate Normal(c: Clock)
  {
    c.minutes < 60 && c.seconds < 60 && c.millis < 1000
  }

  /** The instant a clock reading denotes, in milliseconds. */
  function Millis(c: Clock): nat
  {
    c.hours * MillisPerHour + c.minutes * MillisPerMinute + c.seconds * MillisPerSecond + c.millis
  }

  /** The carries of seconds_to_srt_timestamp: every field of the clock is in
      range and the fields add back up to the instant. */
  function ToClock(t: nat): (c: Clock)
    ensures Normal(c)
    ensures Millis(c) == t
  {
    var seconds := t / 1000;
    var minutes := seconds / 60;
    Clock(minutes / 60, minutes % 60, seconds % 60, t % 1000)
  }

  /** A normal clock is the only one that denotes its instant: the carries
      recover it exactly. */
  lemma ToClockOfMillis(c: Clock)
    requires Normal(c)
    ensures ToClock(Millis(c)) == c
  {
    var totalSeconds := c.hours * 3600 + c.minutes * 60 + c.seconds;
    var totalMinutes := c.hours * 60 + c.minutes;
    assert Millis(c) == totalSeconds * 1000 + c.millis;
    assert Millis(c) / 1000 == totalSeconds && Millis(c) % 1000 == c.millis;
    assert totalSeconds == totalMinutes * 60 + c.seconds;
    assert totalSeconds / 60 == totalMinutes && totalSeconds % 60 == c.seconds;
    assert totalMinutes / 60 == c.hours && totalMinutes % 60 == c.minutes;
  }

  function Layout(c: Clock): string
  {
    PadZero(c.hours, 2) + ":" + PadZero(c.minutes, 2) + ":" + PadZero(c.seconds, 2) + "," + PadZero(c.millis, 3)
  }

  /** The characters a timestamp is made of. */
  predicate TimestampChar(c: char)
  {
    IsDigit(c) || c == ':' || c == ','
  }

  /** Where the four printed fields of a normal clock sit: the hours up to
      ten characters from the end, then two-digit minutes and seconds and
      three-digit milliseconds after their separators. */
  lemma LayoutFields(c: Clock)
    requires Normal(c)
    ensures var s := Layout(c); var n := |s|;
      && n == |PadZero(c.hours, 2)| + 10
      && s[..n - 10] == PadZero(c.hours, 2) && s[n - 10] == ':'
      && s[n - 9..n - 7] == PadZero(c.minutes, 2) && s[n - 7] == ':'
      && s[n - 6..n - 4] == PadZero(c.seconds, 2) && s[n - 4] == ','
      && s[n - 3..] == PadZero(c.millis, 3)
  {
    assert Pow10(2) == 100 && Pow10(3) == 1000;
    PadZeroWidth(c.minutes, 2);
    PadZeroWidth(c.seconds, 2);
    PadZeroWidth(c.millis, 3);
    var h, m, sec, ms := PadZero(c.hours, 2), PadZero(c.minutes, 2), PadZero(c.seconds, 2), PadZero(c.millis, 3);
    var s := Layout(c);
    assert s == h + ":" + m + ":" + sec + "," + ms;
  }

  /** The printed fields of a normal clock: two-digit minutes and seconds,
      three-digit milliseconds, two or more hour digits, each all digits, and
      nothing but digits and the two separators. */
  lemma LayoutShape(c: Clock)
    requires Normal(c)
    ensures var s := Layout(c);
      && |s| == |PadZero(c.hours, 2)| + 10 >= 12
      && (c.hours < 100 ==> |s| == 12)
      && s[|s| - 10] == ':' && s[|s| - 7] == ':' && s[|s| - 4] == ','
      && AllDigits(s[..|s| - 10]) && AllDigits(s[|s| - 9..|s| - 7])
      && AllDigits(s[|s| - 6..|s| - 4]) && AllDigits(s[|s| - 3..])
      && (forall i :: 0 <= i < |s| ==> TimestampChar(s[i]))
  {
    assert Pow10(2) == 100;
    if c.hours < 100 {
      PadZeroWidth(c.hours, 2);
    }
    LayoutFields(c);
    var s := Layout(c);
    var n := |s|;
    forall i | 0 <= i < n ensures TimestampChar(s[i]) {
      if i < n - 10 {
        assert s[i] == s[..n - 10][i];
      } else if n - 9 <= i < n - 7 {
        assert s[i] == s[n - 9..n - 7][i - (n - 9)];
      } else if n - 6 <= i < n - 4 {
        assert s[i] == s[n - 6..n - 4][i - (n - 6)];
      } else if n - 3 <= i {
        assert s[i] == s[n - 3..][i - (n - 3)];
      }
    }
  }

  /** Reading back the layout of a normal clock gives the instant it denotes. */
  lemma ParseLayout(c: Clock)
    requires Normal(c)
    ensures Parse(Layout(c)) == Some(Millis(c))
  {
    LayoutFields(c);
    PadZeroRoundTrip(c.hours, 2);
    PadZeroRoundTrip(c.minutes, 2);
    PadZeroRoundTrip(c.seconds, 2);
    PadZeroRoundTrip(c.millis, 3);
  }

  lemma HoursBelow100(c: Clock, t: nat)
    requires Millis(c) == t
    ensures t < 100 * MillisPerHour ==> c.hours < 100
  {
    assert c.hours * MillisPerHour <= t;
  }

  /** seconds_to_srt_timestamp on whole milliseconds: at least twelve
      characters, all digits, colons and commas. */
  function Format(t: nat): (s: string)
    ensures |s| >= 12
    ensures forall i :: 0 <= i < |s| ==> TimestampChar(s[i])
  {
    LayoutShape(ToClock(t));
    Layout(ToClock(t))
  }

  /** `HH:MM:SS,mmm` with two-digit minutes and seconds, three-digit
      milliseconds and at least two hour digits, each all digits, so exactly
      twelve characters below 100 hours; no spaces anywhere. */
  lemma FormatShape(t: nat)
    ensures |Format(t)| >= 12
    ensures t < 100 * MillisPerHour ==> |Format(t)| == 12
    ensures var s := Format(t); s[|s| - 10] == ':' && s[|s| - 7] == ':' && s[|s| - 4] == ','
    ensures var s := Format(t);
      && AllDigits(s[..|s| - 10]) && AllDigits(s[|s| - 9..|s| - 7])
      && AllDigits(s[|s| - 6..|s| - 4]) && AllDigits(s[|s| - 3..])
    ensures Free(Format(t), ' ')
  {
    LayoutShape(ToClock(t));
    HoursBelow100(ToClock(t), t);
  }

  /** Reads a timestamp back: at least two hour digits, then `:MM:SS,mmm`
      with minutes and seconds below 60. */
  function Parse(s: string): (r: Option<nat>)
    ensures r.Some? ==> |s| >= 12 && s[|s| - 10] == ':' && s[|s| - 7] == ':' && s[|s| - 4] == ','
  {
    if |s| < 12 then None
    else
      var n := |s|;
      var hh, mm, ss, mmm := s[..n - 10], s[n - 9..n - 7], s[n - 6..n - 4], s[n - 3..];
      if s[n - 10] != ':' || s[n - 7] != ':' || s[n - 4] != ',' then None
      else if !(AllDigits(hh) && AllDigits(mm) && AllDigits(ss) && AllDigits(mmm)) then None
      else
        var c := Clock(ParseDecimal(hh), ParseDecimal(mm), ParseDecimal(ss), ParseDecimal(mmm));
        if Normal(c) then Some(Millis(c)) else None
  }

  /** Parsing a printed timestamp gives back the instant it was printed from. */
  lemma ParseFormat(t: nat)
    ensures Parse(Format(t)) == Some(t)
  {
    ParseLayout(ToClock(t));
  }

  /** Distinct instants print differently. */
  lemma FormatInjective(t1: nat, t2: nat)
    requires Format(t1) == Format(t2)
    ensures t1 == t2
  {
    ParseFormat(t1);
    ParseFormat(t2);
  }

  /** Worked example: the instant zero. */
  lemma FormatZero()
    ensures Format(0) == "00:00:00,000"
  {
    assert ToClock(0) == Clock(0, 0, 0, 0);
    PadTwo(0);
    PadThree(0);
  }

  /** Worked example: 61.251 s carries into the minutes. */
  lemma FormatMinuteCarry()
    ensures Format(61251) == "00:01:01,251"
  {
    assert ToClock(61251) == Clock(0, 1, 1, 251);
    PadTwo(0);
    PadTwo(1);
    PadThree(251);
  }

  /** Worked example: 3661.001 s carries into the hours. */
  lemma FormatHourCarry()
    ensures Format(3661001) == "01:01:01,001"
  {
    assert ToClock(3661001) == Clock(1, 1, 1, 1);
    PadTwo(1);
    PadThree(1);
  }

  lemma PadTwo(n: nat)
    requires n < 10
    ensures PadZero(n, 2) == ['0', DigitChar(n)]
  {
    assert Zeros(1) == ['0'];
  }

  lemma PadThree(n: nat)
    requires n < 10 || 100 <= n < 1000
    ensures n < 10 ==> PadZero(n, 3) == ['0', '0', DigitChar(n)]
    ensures 100 <= n ==> PadZero(n, 3) == [DigitChar(n / 100), DigitChar(n / 10 % 10), DigitChar(n % 10)]
  {
    if n < 10 {
      assert Zeros(2) == ['0', '0'];
    } else {
      assert Decimal(n / 10) == [DigitChar(n / 100), DigitChar(n / 10 % 10)];
    }
  }
}
