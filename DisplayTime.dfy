/**
 * Realtime estimates from Skyss' `DisplayTime` strings
 * (MMM-Skyss.js, processSkyssDisplaytime).
 *
 * A display time is either remaining time, `"<N> min"`, or a local clock
 * time, `"HH:MM"`. Both regular expressions of the source are unanchored,
 * so each pattern is searched for anywhere in the string, leftmost match
 * first; the minutes pattern is tried before the clock pattern.
 */
module DisplayTime {
  import opened Wrappers
  import opened Text
  import opened Time

  /** A moment.js value: a valid instant, or the invalid date an overflowing clock time parses to. */
  datatype Moment = At(ms: int) | InvalidDate

  /** The characters `s[i..j]` are all decimal digits. */
  predicate DigitsIn(s: string, i: nat, j: nat)
    requires i <= j <= |s|
  {
    forall k :: i <= k < j ==> IsDigit(s[k])
  }

  function DigitsValue(s: string, i: nat, j: nat): nat
    requires i <= j <= |s| && DigitsIn(s, i, j)
  {
    assert AllDigits(s[i..j]) by {
      forall k | 0 <= k < j - i ensures IsDigit(s[i..j][k]) {
        assert s[i..j][k] == s[i + k];
      }
    }
    DecimalValue(s[i..j])
  }

  /** `/([0-9]+) min/` matches at `i` with the digit group `s[i..j]`. */
  predicate MinutesAt(s: string, i: nat, j: nat) {
    i < j && j + 4 <= |s| && DigitsIn(s, i, j) && s[j..j + 4] == " min"
  }

  /** `/[0-9]{2}:[0-9]{2}/` matches at `k`. */
  predicate ClockAt(s: string, k: nat) {
    k + 5 <= |s| && IsDigit(s[k]) && IsDigit(s[k + 1]) && s[k + 2] == ':' && IsDigit(s[k + 3]) && IsDigit(s[k + 4])
  }

  /** Where a match of the minutes pattern starts and where its digit group ends. */
  datatype Span = Span(start: nat, end: nat)

  /** The end of the run of digits that starts at `i`. */
  function DigitRunEnd(s: string, i: nat): (j: nat)
    requires i <= |s|
    ensures i <= j <= |s| && DigitsIn(s, i, j)
    ensures j < |s| ==> !IsDigit(s[j])
    decreases |s| - i
  {
    if i < |s| && IsDigit(s[i]) then DigitRunEnd(s, i + 1) else i
  }

  /** Only one digit group can end a minutes match that starts at `i`. */
  lemma MinutesEndUnique(s: string, i: nat, j1: nat, j2: nat)
    requires MinutesAt(s, i, j1) && MinutesAt(s, i, j2)
    ensures j1 == j2
  {
    assert s[j1] == s[j1..j1 + 4][0] == ' ';
    assert s[j2] == s[j2..j2 + 4][0] == ' ';
  }

  /** No minutes match starts inside a maximal digit run that is not followed by `" min"`. */
  lemma NoMinutesInRun(s: string, from: nat, end: nat)
    requires from < end <= |s| && DigitsIn(s, from, end)
    requires end < |s| ==> !IsDigit(s[end])
    requires !(end + 4 <= |s| && s[end..end + 4] == " min")
    ensures forall i, j :: from <= i < end ==> !MinutesAt(s, i, j)
  {
    forall i: nat, j: nat | from <= i < end && j + 4 <= |s|
      ensures !MinutesAt(s, i, j)
    {
      assert s[j] == s[j..j + 4][0];
    }
  }

  /** The leftmost match of `/([0-9]+) min/` at or after `from`. */
  function FindMinutes(s: string, from: nat): (r: Option<Span>)
    requires from <= |s|
    ensures r.Some? ==> from <= r.value.start && MinutesAt(s, r.value.start, r.value.end)
    ensures r.Some? ==> forall i, j :: from <= i < r.value.start ==> !MinutesAt(s, i, j)
    ensures r.None? ==> forall i, j :: from <= i ==> !MinutesAt(s, i, j)
    decreases |s| - from
  {
    if from == |s| then None
    else if !IsDigit(s[from]) then FindMinutes(s, from + 1)
    else
      var end := DigitRunEnd(s, from);
      if end + 4 <= |s| && s[end..end + 4] == " min" then Some(Span(from, end))
      else
        NoMinutesInRun(s, from, end);
        FindMinutes(s, end)
  }

  /** The leftmost match of `/[0-9]{2}:[0-9]{2}/` at or after `from`. */
  function FindClock(s: string, from: nat): (r: Option<nat>)
    requires from <= |s|
    ensures r.Some? ==> from <= r.value && ClockAt(s, r.value)
    ensures r.Some? ==> forall k :: from <= k < r.value ==> !ClockAt(s, k)
    ensures r.None? ==> forall k :: from <= k ==> !ClockAt(s, k)
    decreases |s| - from
  {
    if from == |s| then None
    else if ClockAt(s, from) then Some(from)
    else FindClock(s, from + 1)
  }

  function ClockHours(s: string, k: nat): nat
    requires ClockAt(s, k)
  {
    10 * DigitValue(s[k]) + DigitValue(s[k + 1])
  }

  function ClockMinutes(s: string, k: nat): nat
    requires ClockAt(s, k)
  {
    10 * DigitValue(s[k + 3]) + DigitValue(s[k + 4])
  }

  /**
   * Whether moment.js accepts the clock time without overflow: minutes below
   * 60 and hours below 24, or exactly 24:00 (the next midnight).
   */
  predicate ValidClock(h: nat, m: nat) {
    m < 60 && (h < 24 || (h == 24 && m == 0))
  }

  /** The instant `moment(displayTime, "HH:mm")` gives: today, at that clock time. */
  function ClockToday(now: int, h: nat, m: nat): int {
    StartOfDay(now) + (h * 60 + m) * MinuteMs
  }

  /** The realtime estimate a display time yields at instant `now`, if any. */
  function RealtimeEstimate(displayTime: string, now: int): Option<Moment> {
    match FindMinutes(displayTime, 0)
    case Some(span) =>
      Some(At(now + (DigitsValue(displayTime, span.start, span.end) + 1) * MinuteMs))
    case None =>
      match FindClock(displayTime, 0)
      case None => None
      case Some(k) =>
        var h, m := ClockHours(displayTime, k), ClockMinutes(displayTime, k);
        if !ValidClock(h, m) then Some(InvalidDate)
        else
          var today := ClockToday(now, h, m);
          Some(At(if today < now then today + DayMs else today))
  }

  /** `processSkyssDisplaytime`: build the moment, then move it a day on when it lies in the past. */
  method ProcessSkyssDisplaytime(displayTime: string, now: int) returns (realTime: Option<Moment>)
    ensures realTime == RealtimeEstimate(displayTime, now)
  {
    realTime := None;
    var minutesMatch := FindMinutes(displayTime, 0);
    if minutesMatch.Some? {
      var inMinutes := DigitsValue(displayTime, minutesMatch.value.start, minutesMatch.value.end);
      // Adding one minute matches what the Skyss app shows.
      realTime := Some(At(now + (inMinutes + 1) * MinuteMs));
    } else {
      var clockMatch := FindClock(displayTime, 0);
      if clockMatch.Some? {
        var h, m := ClockHours(displayTime, clockMatch.value), ClockMinutes(displayTime, clockMatch.value);
        if !ValidClock(h, m) {
          realTime := Some(InvalidDate);
        } else {
          realTime := Some(At(ClockToday(now, h, m)));
          if realTime.value.ms < now {
            realTime := Some(At(realTime.value.ms + DayMs));
          }
        }
      }
    }
  }

  // ---------------------------------------------------------------------
  // What the estimate means

  /** The leftmost `"<N> min"` yields now plus N+1 minutes, whatever else the string holds. */
  lemma RelativeEstimate(d: string, now: int, i: nat, j: nat)
    requires MinutesAt(d, i, j)
    requires forall i': nat, j': nat :: i' < i ==> !MinutesAt(d, i', j')
    ensures RealtimeEstimate(d, now) == Some(At(now + (DigitsValue(d, i, j) + 1) * MinuteMs))
  {
    var span := FindMinutes(d, 0).value;
    assert span.start == i;
    MinutesEndUnique(d, i, span.end, j);
  }

  /**
   * Without a minutes match, a valid leftmost `HH:MM` before 24:00 yields the
   * earliest instant at or after now whose local clock time is HH:MM.
   */
  lemma ClockEstimate(d: string, now: int, k: nat)
    requires forall i, j :: !MinutesAt(d, i, j)
    requires ClockAt(d, k) && forall k': nat :: k' < k ==> !ClockAt(d, k')
    requires ValidClock(ClockHours(d, k), ClockMinutes(d, k)) && ClockHours(d, k) < 24
    ensures RealtimeEstimate(d, now).Some? && RealtimeEstimate(d, now).value.At?
    ensures var t := RealtimeEstimate(d, now).value.ms;
      var offset := (ClockHours(d, k) * 60 + ClockMinutes(d, k)) * MinuteMs;
      now <= t < now + DayMs &&
      t % DayMs == offset &&
      forall t' :: now <= t' < t ==> t' % DayMs != offset
  {
    var h, m := ClockHours(d, k), ClockMinutes(d, k);
    assert FindMinutes(d, 0).None?;
    assert FindClock(d, 0) == Some(k);
    var offset := (h * 60 + m) * MinuteMs;
    assert 0 <= offset < DayMs;
    EarliestAtClock(now, offset);
  }

  /** `"24:00"` (and any valid clock text reading 24:00) yields the next local midnight. */
  lemma MidnightEstimate(d: string, now: int, k: nat)
    requires forall i, j :: !MinutesAt(d, i, j)
    requires ClockAt(d, k) && forall k': nat :: k' < k ==> !ClockAt(d, k')
    requires ClockHours(d, k) == 24 && ClockMinutes(d, k) == 0
    ensures RealtimeEstimate(d, now) == Some(At(StartOfDay(now) + DayMs))
  {
    assert FindMinutes(d, 0).None?;
    assert FindClock(d, 0) == Some(k);
  }

  /** `r` is the offset into its day of `base + r` when `base` is a midnight. */
  lemma OffsetInDay(base: int, r: int)
    requires base % DayMs == 0 && 0 <= r < DayMs
    ensures (base + r) % DayMs == r
  {
  }

  /** The day-rollover rule picks the earliest instant at or after `now` at the given offset into the day. */
  lemma EarliestAtClock(now: int, offset: int)
    requires 0 <= offset < DayMs
    ensures var today := StartOfDay(now) + offset;
      var t := if today < now then today + DayMs else today;
      now <= t < now + DayMs &&
      t % DayMs == offset &&
      forall t' :: now <= t' < t ==> t' % DayMs != offset
  {
    var base := StartOfDay(now);
    var today := base + offset;
    OffsetInDay(base, offset);
    OffsetInDay(base, 0);
    assert (base + DayMs) % DayMs == 0 by {
      OffsetInDay(base, 0);
    }
    OffsetInDay(base + DayMs, offset);
    forall t' | now <= t' < (if today < now then today + DayMs else today)
      ensures t' % DayMs != offset
    {
      if t' < base + DayMs {
        OffsetInDay(base, t' - base);
      } else {
        OffsetInDay(base + DayMs, t' - base - DayMs);
      }
    }
  }

  /** An overflowing clock time (e.g. `"25:00"` or `"12:75"`) yields moment's invalid date. */
  lemma InvalidClockEstimate(d: string, now: int, k: nat)
    requires forall i, j :: !MinutesAt(d, i, j)
    requires ClockAt(d, k) && forall k': nat :: k' < k ==> !ClockAt(d, k')
    requires !ValidClock(ClockHours(d, k), ClockMinutes(d, k))
    ensures RealtimeEstimate(d, now) == Some(InvalidDate)
  {
    assert FindMinutes(d, 0).None?;
    assert FindClock(d, 0) == Some(k);
  }

  /** A string matching neither pattern yields no estimate (and never fails). */
  lemma NoPatternNoEstimate(d: string, now: int)
    ensures RealtimeEstimate(d, now).None? <==>
      (forall i, j :: !MinutesAt(d, i, j)) && (forall k :: !ClockAt(d, k))
  {
    if RealtimeEstimate(d, now).None? {
      assert FindMinutes(d, 0).None?;
      assert FindClock(d, 0).None?;
    } else if FindMinutes(d, 0).Some? {
      var span := FindMinutes(d, 0).value;
      assert MinutesAt(d, span.start, span.end);
    } else {
      assert ClockAt(d, FindClock(d, 0).value);
    }
  }

  /** A realtime estimate never lies before `now`; a minutes estimate lies at least a minute after it. */
  lemma EstimateNotBeforeNow(d: string, now: int)
    requires RealtimeEstimate(d, now).Some? && RealtimeEstimate(d, now).value.At?
    ensures now <= RealtimeEstimate(d, now).value.ms
    ensures FindMinutes(d, 0).Some? ==> now + MinuteMs <= RealtimeEstimate(d, now).value.ms
  {
  }

  /** `"5 min"` resolves to six minutes from now. */
  lemma FiveMinutes(now: int)
    ensures RealtimeEstimate("5 min", now) == Some(At(now + 6 * MinuteMs))
  {
    var d := "5 min";
    assert MinutesAt(d, 0, 1);
    assert d[0..1] == "5";
    assert DecimalValue("5") == 5 by {
      assert "5"[..0] == [];
    }
    RelativeEstimate(d, now, 0, 1);
  }

  /** `"23:50"` is read as the clock time 23:50 and holds no minutes match. */
  lemma TwentyThreeFifty()
    ensures FindMinutes("23:50", 0).None?
    ensures FindClock("23:50", 0) == Some(0)
    ensures ClockHours("23:50", 0) == 23 && ClockMinutes("23:50", 0) == 50
  {
    var d := "23:50";
    assert ClockAt(d, 0);
    forall i: nat, j: nat | i < j && j + 4 <= |d| ensures !MinutesAt(d, i, j) {
      assert j == 1 && d[1..5] == "3:50";
    }
  }

  /** `"23:50"` stays on the same day at ten past midnight. */
  lemma SameDayExample(day: int)
    ensures RealtimeEstimate("23:50", day * DayMs + 10 * MinuteMs) == Some(At(day * DayMs + (23 * 60 + 50) * MinuteMs))
  {
    TwentyThreeFifty();
    var now := day * DayMs + 10 * MinuteMs;
    assert now % DayMs == 10 * MinuteMs;
    assert StartOfDay(now) == day * DayMs;
  }

  /** `"23:50"` rolls over to the next day at 23:55. */
  lemma NextDayExample(day: int)
    ensures RealtimeEstimate("23:50", day * DayMs + (23 * 60 + 55) * MinuteMs) ==
      Some(At((day + 1) * DayMs + (23 * 60 + 50) * MinuteMs))
  {
    TwentyThreeFifty();
    var now := day * DayMs + (23 * 60 + 55) * MinuteMs;
    assert now % DayMs == (23 * 60 + 55) * MinuteMs;
    assert StartOfDay(now) == day * DayMs;
  }
}
