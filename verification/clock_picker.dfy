/**
 The iOS-style clock picker: a value "HH:mm" (24-hour) shown on three wheels —
 hour 1..12, minute 0..59 and AM/PM — and the handlers that turn a wheel
 selection back into a new "HH:mm" value.
 */
module ClockPicker {
  import opened Wrappers
  import opened Decimal

  /** A parsed value: hours and minutes as `Number` reads them. */
  datatype Time = Time(hours: nat, minutes: nat)

  /** The wheels: 12 hours, 60 minutes, 2 periods. */
  const HourItems: nat := 12
  const MinuteItems: nat := 60
  const PeriodItems: nat := 2

  // ---------------------------------------------------------------------------
  // "HH:mm" text

  /** `s.split(sep)`: the fields between occurrences of `sep`; always at least one. */
  function Split(s: string, sep: char): (r: seq<string>)
    ensures |r| >= 1
    ensures forall i :: 0 <= i < |r| ==> sep !in r[i]
    decreases |s|
  {
    if |s| == 0 then [""]
    else
      var rest := Split(s[1..], sep);
      if s[0] == sep then [""] + rest
      else
        assert forall i :: 1 <= i < |rest| ==> rest[i] == rest[1..][i - 1];
        [[s[0]] + rest[0]] + rest[1..]
  }

  /** `fields.join(sep)`. */
  function Join(fields: seq<string>, sep: char): string
    requires |fields| >= 1
    decreases |fields|
  {
    if |fields| == 1 then fields[0] else fields[0] + [sep] + Join(fields[1..], sep)
  }

  /** Splitting loses nothing: joining the fields with the separator gives back the text. */
  lemma {:induction false} JoinSplit(s: string, sep: char)
    ensures Join(Split(s, sep), sep) == s
    decreases |s|
  {
    if |s| > 0 {
      var rest := Split(s[1..], sep);
      JoinSplit(s[1..], sep);
      if s[0] == sep {
        assert Join([""] + rest, sep) == "" + [sep] + Join(rest, sep);
        assert s == [s[0]] + s[1..];
      } else {
        var r := [[s[0]] + rest[0]] + rest[1..];
        if |rest| == 1 {
          assert Join(r, sep) == [s[0]] + rest[0];
        } else {
          assert r[1..] == rest[1..];
          assert Join(r, sep) == [s[0]] + rest[0] + [sep] + Join(rest[1..], sep);
        }
        assert s == [s[0]] + s[1..];
      }
    }
  }

  /** Text without the separator is one field. */
  lemma {:induction false} SplitNoSeparator(s: string, sep: char)
    requires sep !in s
    ensures Split(s, sep) == [s]
    decreases |s|
  {
    if |s| > 0 {
      assert sep !in s[1..];
      SplitNoSeparator(s[1..], sep);
      assert s == [s[0]] + s[1..];
    }
  }

  /** A separator-free prefix followed by the separator becomes the first field. */
  lemma {:induction false} SplitPrefix(a: string, sep: char, rest: string)
    requires sep !in a
    ensures Split(a + [sep] + rest, sep) == [a] + Split(rest, sep)
    decreases |a|
  {
    var s := a + [sep] + rest;
    if |a| == 0 {
      assert s == [sep] + rest;
      assert s[1..] == rest;
    } else {
      assert s[1..] == a[1..] + [sep] + rest;
      assert sep !in a[1..];
      SplitPrefix(a[1..], sep, rest);
      assert a == [a[0]] + a[1..];
    }
  }

  lemma DigitsHaveNoColon(s: string)
    requires AllDigits(s)
    ensures ':' !in s
  {
  }

  /** The value written by every handler: both fields zero-padded to two digits. */
  function Format(hours: nat, minutes: nat): string {
    Pad2(hours) + ":" + Pad2(minutes)
  }

  /**
   Reading a value as the picker does: split on ":" and read the first two fields
   with `Number`; a missing or unreadable field is `None`.
   */
  function Parse(value: string): (r: Option<Time>)
    ensures r.Some? ==> |Split(value, ':')| >= 2
  {
    var fields := Split(value, ':');
    if |fields| < 2 then None
    else
      match (ParseNumber(fields[0]), ParseNumber(fields[1]))
      case (Some(h), Some(m)) => Some(Time(h, m))
      case _ => None
  }

  /** Every written value reads back as the hours and minutes it was written from. */
  lemma ParseFormat(hours: nat, minutes: nat)
    ensures Parse(Format(hours, minutes)) == Some(Time(hours, minutes))
  {
    var h, m := Pad2(hours), Pad2(minutes);
    ParsePadded(hours, 2);
    ParsePadded(minutes, 2);
    DigitsHaveNoColon(h);
    DigitsHaveNoColon(m);
    SplitPrefix(h, ':', m);
    SplitNoSeparator(m, ':');
    assert Format(hours, minutes) == h + [':'] + m;
  }

  /** For a time of day the value is exactly five characters "HH:mm". */
  lemma FormatShape(hours: nat, minutes: nat)
    requires hours < 24 && minutes < 60
    ensures var s := Format(hours, minutes);
            |s| == 5 && s[2] == ':' && IsDigit(s[0]) && IsDigit(s[1]) && IsDigit(s[3]) && IsDigit(s[4])
  {
    Pad2Length(hours);
    Pad2Length(minutes);
    FieldsShape(Pad2(hours), Pad2(minutes));
  }

  lemma FieldsShape(a: string, b: string)
    requires |a| == 2 && |b| == 2 && AllDigits(a) && AllDigits(b)
    ensures var s := a + ":" + b;
            |s| == 5 && s[2] == ':' && IsDigit(s[0]) && IsDigit(s[1]) && IsDigit(s[3]) && IsDigit(s[4])
  {
    var s := a + ":" + b;
    assert s[0] == a[0] && s[1] == a[1] && s[3] == b[0] && s[4] == b[1];
  }

  // ---------------------------------------------------------------------------
  // 12-hour display

  /** `hours % 12 || 12`: the hour shown on the 12-hour wheel. */
  function DisplayHours(hours: nat): (r: nat)
    ensures 1 <= r <= 12
    ensures r % 12 == hours % 12
  {
    if hours % 12 == 0 then 12 else hours % 12
  }

  predicate IsPM(hours: nat) {
    hours >= 12
  }

  /** The 24-hour value of a 12-hour display hour in the given period (12 AM is 0, 12 PM is 12). */
  function To24(pm: bool, display: nat): nat {
    if pm then (if display == 12 then 12 else display + 12)
    else (if display == 12 then 0 else display)
  }

  /** The wheels' items: "01".."12", "00".."59", and the two periods. */
  function HourLabels(): (r: seq<string>)
    ensures |r| == HourItems
  {
    seq(HourItems, i requires 0 <= i < HourItems => Pad2(i + 1))
  }

  function MinuteLabels(): (r: seq<string>)
    ensures |r| == MinuteItems
  {
    seq(MinuteItems, i requires 0 <= i < MinuteItems => Pad2(i))
  }

  const PeriodLabels: seq<string> := ["AM", "PM"]

  /** The hour, minute and period wheels' selected indices for a value. */
  function HourIndex(t: Time): nat { DisplayHours(t.hours) - 1 }
  function MinuteIndex(t: Time): nat { t.minutes }
  function PeriodIndex(t: Time): nat { if IsPM(t.hours) then 1 else 0 }

  /** A time of day is recovered from its display hour and period. */
  lemma {:induction false} DisplayRoundTrip(hours: nat)
    requires hours < 24
    ensures To24(IsPM(hours), DisplayHours(hours)) == hours
  {
    if hours >= 12 {
      assert hours % 12 == hours - 12;
    } else {
      assert hours % 12 == hours;
    }
  }

  /**
   For a time of day each wheel's selected index is on the wheel, and the label it
   shows reads back as the display hour, the minutes and the period of the value.
   */
  lemma SelectedLabels(t: Time)
    requires t.hours < 24 && t.minutes < 60
    ensures HourIndex(t) < HourItems && MinuteIndex(t) < MinuteItems && PeriodIndex(t) < PeriodItems
    ensures ParseNumber(HourLabels()[HourIndex(t)]) == Some(DisplayHours(t.hours))
    ensures ParseNumber(MinuteLabels()[MinuteIndex(t)]) == Some(t.minutes)
    ensures PeriodLabels[PeriodIndex(t)] == if t.hours >= 12 then "PM" else "AM"
  {
    var d := DisplayHours(t.hours);
    assert HourLabels()[d - 1] == Pad2(d);
    assert MinuteLabels()[t.minutes] == Pad2(t.minutes);
    ParsePadded(d, 2);
    ParsePadded(t.minutes, 2);
  }

  /** Conversely, every display hour and period is the display of the hour it converts to. */
  lemma {:induction false} To24RoundTrip(pm: bool, display: nat)
    requires 1 <= display <= 12
    ensures To24(pm, display) < 24
    ensures DisplayHours(To24(pm, display)) == display
    ensures IsPM(To24(pm, display)) <==> pm
  {
    var h := To24(pm, display);
    if display == 12 {
      assert h % 12 == 0;
    } else if pm {
      assert h % 12 == display;
    } else {
      assert h % 12 == display;
    }
  }

  // ---------------------------------------------------------------------------
  // Handlers

  /** `handleHourChange`: the selected hour index 0..11 in the current period. */
  function HourChange(t: Time, index: nat): string {
    Format(To24(IsPM(t.hours), index + 1), t.minutes)
  }

  /** `handleMinuteChange`: the selected minute index with the hours unchanged. */
  function MinuteChange(t: Time, index: nat): string {
    Format(t.hours, index)
  }

  /** `handlePeriodChange`: index 1 selects PM, anything else AM; the display hour is kept. */
  function PeriodChange(t: Time, index: int): string {
    Format(To24(index == 1, DisplayHours(t.hours)), t.minutes)
  }

  /**
   Choosing hour index `index` gives a time of day whose display hour is
   `index + 1`, in the same period, with the minutes unchanged.
   */
  lemma HourChangeSpec(t: Time, index: nat)
    requires index < HourItems
    ensures exists h: nat :: Parse(HourChange(t, index)) == Some(Time(h, t.minutes))
                             && h < 24 && DisplayHours(h) == index + 1 && (h >= 12 <==> t.hours >= 12)
  {
    var h := To24(IsPM(t.hours), index + 1);
    To24RoundTrip(IsPM(t.hours), index + 1);
    ParseFormat(h, t.minutes);
  }

  /** Re-selecting the shown hour of a time of day writes back the same time. */
  lemma HourChangeRoundTrip(t: Time)
    requires t.hours < 24
    ensures HourIndex(t) < HourItems
    ensures Parse(HourChange(t, HourIndex(t))) == Some(t)
  {
    DisplayRoundTrip(t.hours);
    ParseFormat(t.hours, t.minutes);
  }

  /** Choosing a minute keeps the hours and sets the minutes to the index. */
  lemma MinuteChangeSpec(t: Time, index: nat)
    ensures Parse(MinuteChange(t, index)) == Some(Time(t.hours, index))
  {
    ParseFormat(t.hours, index);
  }

  /**
   Choosing a period keeps the display hour and yields a PM time exactly when the
   index is 1; the minutes are unchanged.
   */
  lemma PeriodChangeSpec(t: Time, index: int)
    ensures exists h: nat :: Parse(PeriodChange(t, index)) == Some(Time(h, t.minutes))
                             && h < 24 && DisplayHours(h) == DisplayHours(t.hours) && (h >= 12 <==> index == 1)
  {
    var h := To24(index == 1, DisplayHours(t.hours));
    To24RoundTrip(index == 1, DisplayHours(t.hours));
    ParseFormat(h, t.minutes);
  }

  // ---------------------------------------------------------------------------
  // Wheel snapping

  /** JavaScript's truncating division `Math.trunc(a / b)`. */
  function JsQuot(a: int, b: int): int
    requires b > 0
  {
    if a >= 0 then a / b else -((-a) / b)
  }

  /** JavaScript's `%`: the remainder of truncating division, with the sign of the dividend. */
  function JsRem(a: int, b: int): (r: int)
    requires b > 0
    ensures a >= 0 ==> 0 <= r < b
    ensures a < 0 ==> -b < r <= 0
    ensures a == JsQuot(a, b) * b + r
  {
    if a >= 0 then a % b else -((-a) % b)
  }

  /**
   The index a released wheel snaps to: wrapped with `((i % n) + n) % n` on an
   endless wheel, clamped to `0..n-1` otherwise.
   */
  function Snap(index: int, itemsLength: int, infiniteLoop: bool): (r: int)
    requires itemsLength >= 1
    ensures 0 <= r < itemsLength
    ensures infiniteLoop ==> exists q :: index == q * itemsLength + r
    ensures !infiniteLoop && 0 <= index < itemsLength ==> r == index
    ensures !infiniteLoop && index < 0 ==> r == 0
    ensures !infiniteLoop && index >= itemsLength ==> r == itemsLength - 1
  {
    if infiniteLoop then
      var inner := JsRem(index, itemsLength);
      var r := JsRem(inner + itemsLength, itemsLength);
      var q1, q2 := JsQuot(index, itemsLength), JsQuot(inner + itemsLength, itemsLength);
      assert index == (q1 + q2 - 1) * itemsLength + r by {
        assert (q1 + q2 - 1) * itemsLength == q1 * itemsLength + q2 * itemsLength - itemsLength;
      }
      r
    else
      var upper := if itemsLength - 1 <= index then itemsLength - 1 else index;
      if 0 >= upper then 0 else upper
  }

  lemma MulBound(d: int, n: int)
    requires n > 0
    ensures d >= 1 ==> d * n >= n
    ensures d <= -1 ==> d * n <= -n
  {
  }

  /** Euclidean remainder is the unique remainder in `0..n-1`. */
  lemma ModUnique(y: int, n: int, q: int, r: int)
    requires n > 0 && y == q * n + r && 0 <= r < n
    ensures y % n == r
  {
    var q', r' := y / n, y % n;
    assert (q - q') * n == r' - r;
    MulBound(q - q', n);
  }

  /** On an endless wheel the snapped index is the mathematical remainder. */
  lemma SnapIsModulo(index: int, itemsLength: int)
    requires itemsLength >= 1
    ensures Snap(index, itemsLength, true) == index % itemsLength
  {
    var r := Snap(index, itemsLength, true);
    var q :| index == q * itemsLength + r;
    ModUnique(index, itemsLength, q, r);
  }

  /**
   `handlePointerUp`: when a drag ends at the rounded index `index`, the wheel
   reports the snapped index, and only if it differs from the selected one.
   */
  function PointerUp(dragging: bool, index: int, selectedIndex: int, itemsLength: int, infiniteLoop: bool)
    : (r: Option<int>)
    requires itemsLength >= 1
    ensures r.Some? <==> dragging && Snap(index, itemsLength, infiniteLoop) != selectedIndex
    ensures r.Some? ==> r.value == Snap(index, itemsLength, infiniteLoop)
    ensures r.Some? ==> 0 <= r.value < itemsLength
  {
    if !dragging then None
    else
      var snapped := Snap(index, itemsLength, infiniteLoop);
      if snapped != selectedIndex then Some(snapped) else None
  }

  /**
   Releasing the endless hour wheel at rounded index `index` reports the index
   `index mod 12` exactly when a drag was in progress and that is not the hour shown;
   the hour handler then writes a time of day whose display hour is that index plus
   one, in the current period, with the minutes kept.
   */
  lemma HourWheelWritesTimeOfDay(t: Time, dragging: bool, index: int)
    ensures var r := PointerUp(dragging, index, HourIndex(t), HourItems, true);
            && (r.Some? <==> dragging && index % HourItems != HourIndex(t))
            && (r.Some? ==> exists h: nat :: Parse(HourChange(t, r.value)) == Some(Time(h, t.minutes))
                                             && h < 24 && DisplayHours(h) == index % HourItems + 1
                                             && (h >= 12 <==> t.hours >= 12))
  {
    SnapIsModulo(index, HourItems);
    var r := PointerUp(dragging, index, HourIndex(t), HourItems, true);
    if r.Some? {
      HourChangeSpec(t, r.value);
    }
  }

  /**
   Releasing the endless minute wheel reports `index mod 60` exactly when a drag was
   in progress and that is not the minute shown; the minute handler then writes those
   minutes with the hours kept.
   */
  lemma MinuteWheelWritesMinutes(t: Time, dragging: bool, index: int)
    ensures var r := PointerUp(dragging, index, MinuteIndex(t), MinuteItems, true);
            && (r.Some? <==> dragging && index % MinuteItems != t.minutes)
            && (r.Some? ==> Parse(MinuteChange(t, r.value)) == Some(Time(t.hours, index % MinuteItems)))
  {
    SnapIsModulo(index, MinuteItems);
    var r := PointerUp(dragging, index, MinuteIndex(t), MinuteItems, true);
    if r.Some? {
      MinuteChangeSpec(t, r.value);
    }
  }

  /**
   Releasing the endless AM/PM wheel reports `index mod 2` exactly when a drag was in
   progress and that is not the period shown; the period handler then writes a time
   of day with the same display hour and minutes, in the afternoon iff that index is 1.
   */
  lemma PeriodWheelWritesPeriod(t: Time, dragging: bool, index: int)
    ensures var r := PointerUp(dragging, index, PeriodIndex(t), PeriodItems, true);
            && (r.Some? <==> dragging && index % PeriodItems != PeriodIndex(t))
            && (r.Some? ==> exists h: nat :: Parse(PeriodChange(t, r.value)) == Some(Time(h, t.minutes))
                                             && h < 24 && DisplayHours(h) == DisplayHours(t.hours)
                                             && (h >= 12 <==> index % PeriodItems == 1))
  {
    SnapIsModulo(index, PeriodItems);
    var r := PointerUp(dragging, index, PeriodIndex(t), PeriodItems, true);
    if r.Some? {
      PeriodChangeSpec(t, r.value);
    }
  }
}
