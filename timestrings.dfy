/** The "H:MM" / "HH:MM" time strings of src/utils/calendar.ts: the format check,
    the minute comparison and the display helper. */
module TimeStrings {
  import opened Wrappers
  import opened Text

  /** `/^([01]?[0-9]|2[0-3]):[0-5][0-9]$/.test(time)`, character by character: an
      hour of one digit, or of two digits 00..19 or 20..23, a colon, then a minute
      00..59, and nothing else. */
  predicate IsValidTimeFormat(time: string)
    ensures IsValidTimeFormat(time) ==>
      && (|time| == 4 || |time| == 5) && time[|time| - 3] == ':'
      && AllDigits(time[..|time| - 3]) && AllDigits(time[|time| - 2..])
  {
    if |time| == 4 then
      IsDigit(time[0]) && time[1] == ':' && '0' <= time[2] <= '5' && IsDigit(time[3])
    else if |time| == 5 then
      (((time[0] == '0' || time[0] == '1') && IsDigit(time[1])) || (time[0] == '2' && '0' <= time[1] <= '3'))
      && time[2] == ':' && '0' <= time[3] <= '5' && IsDigit(time[4])
    else false
  }

  /** The text of hour `h` and minute `m`: the minute always in two digits, the hour
      in two digits or, when `twoDigitHour` is false, in one. */
  function TimeText(h: int, m: int, twoDigitHour: bool): string
    requires 0 <= h < (if twoDigitHour then 100 else 10) && 0 <= m < 100
  {
    (if twoDigitHour then [DigitChar(h / 10), DigitChar(h % 10)] else [DigitChar(h)])
      + [':', DigitChar(m / 10), DigitChar(m % 10)]
  }

  /** Position of the first colon. */
  function IndexOfColon(s: string): (k: nat)
    requires ':' in s
    ensures k < |s| && s[k] == ':' && ':' !in s[..k]
  {
    if s[0] == ':' then 0
    else
      assert ':' in s[1..] by { var i :| 0 <= i < |s| && s[i] == ':'; assert s[1..][i - 1] == ':'; }
      1 + IndexOfColon(s[1..])
  }

  /** The pieces joined back with colons. */
  function JoinColon(parts: seq<string>): string {
    if |parts| <= 1 then (if parts == [] then "" else parts[0])
    else parts[0] + ":" + JoinColon(parts[1..])
  }

  /** `s.split(':')`: the colon-free pieces that join back to `s`. */
  function SplitColon(s: string): (parts: seq<string>)
    ensures |parts| >= 1
    ensures forall i :: 0 <= i < |parts| ==> ':' !in parts[i]
    ensures JoinColon(parts) == s
    decreases |s|
  {
    if ':' !in s then [s]
    else
      var k := IndexOfColon(s);
      var rest := SplitColon(s[k + 1..]);
      assert ([s[..k]] + rest)[1..] == rest;
      assert s == s[..k] + ":" + s[k + 1..];
      [s[..k]] + rest
  }

  /** Splitting two colon-free pieces joined by a colon gives the two pieces. */
  lemma SplitTwo(a: string, b: string)
    requires ':' !in a && ':' !in b
    ensures SplitColon(a + ":" + b) == [a, b]
  {
    var s := a + ":" + b;
    var k := IndexOfColon(s);
    assert s[..k] == a;
    assert s[k + 1..] == b;
  }

  /** `Number(x)` of one split piece: a string of decimal digits reads as its value
      (the empty string as 0), anything else and a missing piece read as NaN. */
  function ToNumber(piece: Option<string>): (n: Option<int>)
    ensures n.Some? ==> n.value >= 0
  {
    match piece
    case None => None
    case Some(t) => if AllDigits(t) then Some(DecimalValue(t)) else None
  }

  /** `const [h, m] = time.split(':').map(Number)`; None when either is NaN. */
  function HoursMinutes(time: string): Option<(int, int)> {
    var parts := SplitColon(time);
    var h := ToNumber(Some(parts[0]));
    var m := ToNumber(if |parts| > 1 then Some(parts[1]) else None);
    if h.Some? && m.Some? then Some((h.value, m.value)) else None
  }

  /** `h * 60 + m`; None stands for NaN. */
  function MinutesOf(time: string): Option<int> {
    match HoursMinutes(time)
    case None => None
    case Some(hm) => Some(hm.0 * 60 + hm.1)
  }

  /** `compareTime(time1, time2)`: the difference in minutes; None stands for NaN.
      On two accepted strings it is defined and is the exact difference of their
      minutes since midnight, each in 0..1439. */
  function CompareTime(time1: string, time2: string): (r: Option<int>)
    ensures IsValidTimeFormat(time1) && IsValidTimeFormat(time2) ==>
      && MinutesOf(time1).Some? && 0 <= MinutesOf(time1).value < 1440
      && MinutesOf(time2).Some? && 0 <= MinutesOf(time2).value < 1440
      && r == Some(MinutesOf(time1).value - MinutesOf(time2).value)
  {
    MinutesOfValid(time1);
    MinutesOfValid(time2);
    var m1, m2 := MinutesOf(time1), MinutesOf(time2);
    if m1.Some? && m2.Some? then Some(m1.value - m2.value) else None
  }

  lemma TwoDigits(a: char, b: char)
    requires IsDigit(a) && IsDigit(b)
    ensures AllDigits([a, b]) && DecimalValue([a, b]) == 10 * DigitValue(a) + DigitValue(b)
  {
    OneDigit(a);
    assert [a, b][..1] == [a];
  }

  lemma OneDigit(a: char)
    requires IsDigit(a)
    ensures AllDigits([a]) && DecimalValue([a]) == DigitValue(a)
  {
    assert [a][..0] == [];
  }

  /** An accepted string splits at its colon into the hour and the minute digits. */
  lemma ValidTimeSplits(time: string)
    requires IsValidTimeFormat(time)
    ensures var k := |time| - 3; SplitColon(time) == [time[..k], time[k + 1..]]
  {
    var k := |time| - 3;
    var hour, minute := time[..k], time[k + 1..];
    assert time == hour + ":" + minute;
    assert ':' !in hour by {
      if k == 1 { assert hour == [time[0]]; } else { assert hour == [time[0], time[1]]; }
    }
    assert minute == [time[k + 1], time[k + 2]];
    SplitTwo(hour, minute);
  }

  /** An accepted four-character string reads as its one hour digit and two minute digits. */
  lemma ShortTimeDecodes(time: string)
    requires IsValidTimeFormat(time) && |time| == 4
    ensures var h, m := DigitValue(time[0]), 10 * DigitValue(time[2]) + DigitValue(time[3]);
      && HoursMinutes(time) == Some((h, m)) && 0 <= m < 60
      && time == TimeText(h, m, false)
  {
    ValidTimeSplits(time);
    assert time[..1] == [time[0]];
    assert time[2..] == [time[2], time[3]];
    OneDigit(time[0]);
    TwoDigits(time[2], time[3]);
  }

  /** An accepted five-character string reads as its two hour digits and two minute digits. */
  lemma LongTimeDecodes(time: string)
    requires IsValidTimeFormat(time) && |time| == 5
    ensures var h, m := 10 * DigitValue(time[0]) + DigitValue(time[1]), 10 * DigitValue(time[3]) + DigitValue(time[4]);
      && HoursMinutes(time) == Some((h, m)) && 0 <= h < 24 && 0 <= m < 60
      && time == TimeText(h, m, true)
  {
    ValidTimeSplits(time);
    assert time[..2] == [time[0], time[1]];
    assert time[3..] == [time[3], time[4]];
    TwoDigits(time[0], time[1]);
    TwoDigits(time[3], time[4]);
  }

  /** Every accepted string is the text of an hour 0..23 and a minute 0..59, and
      reads back as exactly that hour and minute. */
  lemma ValidTimeDecodes(time: string)
    requires IsValidTimeFormat(time)
    ensures HoursMinutes(time).Some?
    ensures var hm := HoursMinutes(time).value;
      && 0 <= hm.0 < 24 && 0 <= hm.1 < 60 && (|time| == 4 ==> hm.0 < 10)
      && time == TimeText(hm.0, hm.1, |time| == 5)
  {
    if |time| == 4 {
      ShortTimeDecodes(time);
    } else {
      LongTimeDecodes(time);
    }
  }

  /** Every hour 0..23 and minute 0..59, written with a two-digit minute and an hour
      of two digits (or one, below 10), is accepted and reads back as itself. */
  lemma TimeTextAccepted(h: int, m: int, twoDigitHour: bool)
    requires 0 <= h < 24 && 0 <= m < 60 && (twoDigitHour || h < 10)
    ensures IsValidTimeFormat(TimeText(h, m, twoDigitHour))
    ensures HoursMinutes(TimeText(h, m, twoDigitHour)) == Some((h, m))
  {
    var hour := if twoDigitHour then [DigitChar(h / 10), DigitChar(h % 10)] else [DigitChar(h)];
    var minute := [DigitChar(m / 10), DigitChar(m % 10)];
    assert TimeText(h, m, twoDigitHour) == hour + ":" + minute;
    SplitTwo(hour, minute);
    TwoDigits(minute[0], minute[1]);
    if twoDigitHour {
      TwoDigits(hour[0], hour[1]);
    } else {
      OneDigit(hour[0]);
    }
  }

  /** An accepted string reads as a number of minutes since midnight, 0..1439. */
  lemma MinutesOfValid(time: string)
    ensures IsValidTimeFormat(time) ==> MinutesOf(time).Some? && 0 <= MinutesOf(time).value < 1440
  {
    if IsValidTimeFormat(time) {
      ValidTimeDecodes(time);
    }
  }

  /** `compareTime` is zero on equal inputs and antisymmetric. */
  lemma CompareTimeAntisymmetric(time1: string, time2: string)
    ensures CompareTime(time1, time2).Some? == CompareTime(time2, time1).Some?
    ensures CompareTime(time1, time2).Some? ==> CompareTime(time1, time2).value == -CompareTime(time2, time1).value
    ensures MinutesOf(time1).Some? ==> CompareTime(time1, time1) == Some(0)
  {
  }

  /** `formatTime(time)`: empty for the empty string, otherwise the first two split
      pieces joined by a colon (`undefined` standing in for a missing minute). An
      accepted time string is displayed unchanged; a non-empty string without a
      colon gets ":undefined" appended. */
  function FormatTime(time: string): (r: string)
    ensures IsValidTimeFormat(time) ==> r == time
    ensures time != "" && ':' !in time ==> r == time + ":undefined"
  {
    if time == "" then ""
    else
      var parts := SplitColon(time);
      assert IsValidTimeFormat(time) ==> parts == [time[..|time| - 3], time[|time| - 2..]] by {
        if IsValidTimeFormat(time) {
          ValidTimeSplits(time);
        }
      }
      parts[0] + ":" + (if |parts| > 1 then parts[1] else "undefined")
  }

  /** Formatting a formatted string changes nothing. */
  lemma FormatTimeIdempotent(time: string)
    ensures FormatTime(FormatTime(time)) == FormatTime(time)
  {
    if time != "" {
      var parts := SplitColon(time);
      var minute := if |parts| > 1 then parts[1] else "undefined";
      assert ':' !in "undefined";
      SplitTwo(parts[0], minute);
    }
  }

  /** The examples the format check is meant to accept and reject. */
  lemma TimeFormatExamples()
    ensures IsValidTimeFormat("9:30") && IsValidTimeFormat("09:00") && IsValidTimeFormat("23:59")
    ensures !IsValidTimeFormat("24:00") && !IsValidTimeFormat("12:60")
    ensures !IsValidTimeFormat("abc") && !IsValidTimeFormat("")
  {
  }

  /** "09:00" is accepted and reads as 540 minutes. */
  lemma NineOClock()
    ensures IsValidTimeFormat("09:00") && MinutesOf("09:00") == Some(540)
  {
    assert DigitChar(0) == '0' && DigitChar(9) == '9';
    assert TimeText(9, 0, true) == "09:00";
    TimeTextAccepted(9, 0, true);
  }

  /** "10:00" is accepted and reads as 600 minutes. */
  lemma TenOClock()
    ensures IsValidTimeFormat("10:00") && MinutesOf("10:00") == Some(600)
  {
    assert DigitChar(0) == '0' && DigitChar(1) == '1';
    assert TimeText(10, 0, true) == "10:00";
    TimeTextAccepted(10, 0, true);
  }

  /** The examples of the comparison. */
  lemma CompareTimeExamples()
    ensures CompareTime("09:00", "10:00") == Some(-60)
    ensures CompareTime("10:00", "09:00") == Some(60)
    ensures CompareTime("09:00", "09:00") == Some(0)
  {
    NineOClock();
    TenOClock();
  }
}
