/** Conversion between seconds and clock strings: `format_time` and
    `convert_time_to_seconds` of clipify/core/utils.py. Times are whole
    seconds; for `int` arguments Python's `//` and `%` by 60 are Dafny's
    `/` and `%` (both floor for a positive divisor), negative inputs included. */
module TimeFormat {
  import opened Wrappers
  import opened Text

  /** Python's `f"{n:02d}"` for a natural number. */
  function Pad2(n: nat): (r: string)
    ensures AllDigits(r) && DigitsValue(r) == n
    ensures |r| >= 1 && (n < 100 ==> |r| == 2)
  {
    DigitsValueOfNatToString(n);
    if n < 10 then
      var r := "0" + NatToString(n);
      assert r[..|r| - 1] == "0";
      r
    else NatToString(n)
  }

  /** `format_time(seconds)`: `H:MM:SS` when the hour count is positive,
      otherwise `M:SS`. */
  function FormatTime(seconds: int): string
  {
    var minutes := seconds / 60;
    var secs := seconds % 60;
    var hours := minutes / 60;
    var mins := minutes % 60;
    if hours > 0 then IntToString(hours) + ":" + Pad2(mins) + ":" + Pad2(secs)
    else IntToString(mins) + ":" + Pad2(secs)
  }

  datatype TimeError = WrongPartCount | NotAnInteger

  /** `convert_time_to_seconds(time_str)`: three `:`-separated integers are
      hours, minutes and seconds, two are minutes and seconds; any other
      part count, or a part that is not an integer, is a `ValueError`. */
  function ConvertTimeToSeconds(timeStr: string): (r: Result<int, TimeError>)
    ensures r == Err(WrongPartCount) <==> |Split(timeStr, ':')| !in {2, 3}
  {
    ConvertParts(Split(timeStr, ':'))
  }

  /** The conversion once the string is split into its parts. */
  function ConvertParts(parts: seq<string>): (r: Result<int, TimeError>)
    ensures r == Err(WrongPartCount) <==> |parts| != 2 && |parts| != 3
    ensures r.Ok? ==> forall i :: 0 <= i < |parts| ==> ParseInt(parts[i]).Some?
  {
    if |parts| == 3 then
      var h := ParseInt(parts[0]);
      var m := ParseInt(parts[1]);
      var s := ParseInt(parts[2]);
      if h.Some? && m.Some? && s.Some? then Ok(h.value * 3600 + m.value * 60 + s.value)
      else Err(NotAnInteger)
    else if |parts| == 2 then
      var m := ParseInt(parts[0]);
      var s := ParseInt(parts[1]);
      if m.Some? && s.Some? then Ok(m.value * 60 + s.value)
      else Err(NotAnInteger)
    else
      Err(WrongPartCount)
  }

  lemma NoColonInDigits(s: string)
    requires AllDigits(s)
    ensures ':' !in s
  {
  }

  lemma NoColonInNumber(i: int)
    ensures ':' !in IntToString(i)
  {
    if i < 0 {
      NoColonInDigits(NatToString(-i));
      assert IntToString(i) == "-" + NatToString(-i);
    } else {
      NoColonInDigits(NatToString(i));
    }
  }

  /** The fields of the formatted string: hours, two-digit minutes and
      two-digit seconds once an hour has passed, otherwise minutes and
      two-digit seconds. Minutes and seconds lie in [0, 59] for any input,
      negative ones included. */
  lemma FormatTimeFields(seconds: int)
    ensures Split(FormatTime(seconds), ':') ==
      if seconds >= 3600 then [IntToString(seconds / 60 / 60), Pad2(seconds / 60 % 60), Pad2(seconds % 60)]
      else [IntToString(seconds / 60 % 60), Pad2(seconds % 60)]
  {
    var minutes := seconds / 60;
    var secs := seconds % 60;
    var hours := minutes / 60;
    var mins := minutes % 60;
    NoColonInDigits(Pad2(mins));
    NoColonInDigits(Pad2(secs));
    if hours > 0 {
      NoColonInNumber(hours);
      var parts := [IntToString(hours), Pad2(mins), Pad2(secs)];
      assert parts[1..] == [Pad2(mins), Pad2(secs)];
      assert parts[1..][1..] == [Pad2(secs)];
      assert JoinWith(parts[1..], ':') == Pad2(mins) + ":" + Pad2(secs);
      assert FormatTime(seconds) == JoinWith(parts, ':');
      SplitJoin(parts, ':');
    } else {
      NoColonInNumber(mins);
      var parts := [IntToString(mins), Pad2(secs)];
      assert parts[1..] == [Pad2(secs)];
      assert FormatTime(seconds) == JoinWith(parts, ':');
      SplitJoin(parts, ':');
    }
  }

  /** Splitting seconds into hour, minute and second fields and adding them
      back up gives the original count. */
  lemma ClockArithmetic(n: int)
    ensures (n / 60 / 60) * 3600 + (n / 60 % 60) * 60 + n % 60 == n
    ensures 0 <= n < 3600 ==> n / 60 % 60 == n / 60
  {
    var q := n / 60;
    assert n == 60 * q + n % 60;
    assert q == 60 * (q / 60) + q % 60;
  }

  /** Every natural number survives `format_time` followed by
      `convert_time_to_seconds`. */
  lemma RoundTrip(n: nat)
    ensures ConvertTimeToSeconds(FormatTime(n)) == Ok(n)
  {
    FormatTimeFields(n);
    ClockArithmetic(n);
    if n >= 3600 {
      ConvertClock3(FormatTime(n), n, n / 60 / 60, n / 60 % 60, n % 60);
    } else {
      ConvertClock2(FormatTime(n), n, n / 60 % 60, n % 60);
    }
  }

  lemma ConvertClock3(str: string, n: int, h: int, m: nat, s: nat)
    requires Split(str, ':') == [IntToString(h), Pad2(m), Pad2(s)]
    requires h * 3600 + m * 60 + s == n
    ensures ConvertTimeToSeconds(str) == Ok(n)
  {
    var parts := Split(str, ':');
    ParseIntOfIntToString(h);
    ParseDigits(Pad2(m));
    ParseDigits(Pad2(s));
    ConvertThree(parts, n, h, m, s);
  }

  lemma ConvertClock2(str: string, n: int, m: int, s: nat)
    requires Split(str, ':') == [IntToString(m), Pad2(s)]
    requires m * 60 + s == n
    ensures ConvertTimeToSeconds(str) == Ok(n)
  {
    var parts := Split(str, ':');
    ParseIntOfIntToString(m);
    ParseDigits(Pad2(s));
    ConvertTwo(parts, n, m, s);
  }

  lemma ConvertThree(parts: seq<string>, n: int, h: int, m: int, s: int)
    requires |parts| == 3
    requires ParseInt(parts[0]) == Some(h) && ParseInt(parts[1]) == Some(m) && ParseInt(parts[2]) == Some(s)
    requires h * 3600 + m * 60 + s == n
    ensures ConvertParts(parts) == Ok(n)
  {
  }

  lemma ConvertTwo(parts: seq<string>, n: int, m: int, s: int)
    requires |parts| == 2
    requires ParseInt(parts[0]) == Some(m) && ParseInt(parts[1]) == Some(s)
    requires m * 60 + s == n
    ensures ConvertParts(parts) == Ok(n)
  {
  }

  /** Examples from the tests: 65 seconds is "1:05"; an hour is written with
      an hour field, "1:00:00", where the tests expect "60:00". */
  lemma FormatExamples()
    ensures FormatTime(65) == "1:05"
    ensures FormatTime(3600) == "1:00:00"
    ensures FormatTime(3665) == "1:01:05"
  {
    FormatMinute();
    FormatHour();
    FormatHourMinute();
  }

  lemma FormatMinute()
    ensures FormatTime(65) == "1:05"
  {
    SmallDigits();
    FormatShort(1, 5);
    assert IntToString(1) + ":" + Pad2(5) == "1" + ":" + "05";
  }

  lemma FormatHour()
    ensures FormatTime(3600) == "1:00:00"
  {
    SmallDigits();
    FormatLong(1, 0, 0);
    assert IntToString(1) + ":" + Pad2(0) + ":" + Pad2(0) == "1" + ":" + "00" + ":" + "00";
  }

  lemma FormatHourMinute()
    ensures FormatTime(3665) == "1:01:05"
  {
    SmallDigits();
    FormatLong(1, 1, 5);
    assert IntToString(1) + ":" + Pad2(1) + ":" + Pad2(5) == "1" + ":" + "01" + ":" + "05";
  }

  lemma SmallDigits()
    ensures NatToString(0) == "0" && NatToString(1) == "1" && NatToString(5) == "5"
    ensures Pad2(0) == "00" && Pad2(1) == "01" && Pad2(5) == "05"
    ensures IntToString(0) == "0" && IntToString(1) == "1"
  {
  }

  lemma FormatShort(m: nat, s: nat)
    requires m < 60 && s < 60
    ensures FormatTime(m * 60 + s) == IntToString(m) + ":" + Pad2(s)
  {
    var n := m * 60 + s;
    assert n / 60 == m && n % 60 == s;
    assert m / 60 == 0 && m % 60 == m;
  }

  lemma FormatLong(h: nat, m: nat, s: nat)
    requires 0 < h && m < 60 && s < 60
    ensures FormatTime(h * 3600 + m * 60 + s) == IntToString(h) + ":" + Pad2(m) + ":" + Pad2(s)
  {
    var n := h * 3600 + m * 60 + s;
    assert n / 60 == h * 60 + m;
    assert n / 60 / 60 == h;
  }

  /** A string without a colon has one part and is rejected, as the tests
      expect of "invalid". */
  lemma NoColonRejected(s: string)
    requires ':' !in s
    ensures ConvertTimeToSeconds(s) == Err(WrongPartCount)
  {
    SplitNoSep(s, ':');
  }
}
