/**
 * The values each table row shows that are computed rather than copied:
 * the departure time label (MMM-Skyss.js, formatTime) and the Font Awesome
 * icon for the service (the switch in getTableRow).
 */
module Rendering {
  import opened Text
  import opened Time
  import DisplayTime

  /**
   * A time label. `Now`, `OneMinute` and `Minutes` stand for the translated
   * "NOW", "1MIN" and "<count> MINUTES" strings; `Clock` is the literal text.
   */
  datatype TimeLabel = Now | OneMinute | Minutes(count: int) | Clock(text: string)

  /** `Math.floor((t - now) / 60000)`: whole minutes until `t`, rounded down. */
  function MinutesUntil(t: int, now: int): (m: int)
    ensures m * MinuteMs <= t - now < (m + 1) * MinuteMs
  {
    (t - now) / MinuteMs
  }

  /** `("0" + m).slice(-2)`: the last two characters of the minute with a zero in front. */
  function TwoDigits(m: nat): (s: string)
    requires m < 100
    ensures |s| == 2 && AllDigits(s) && DecimalValue(s) == m
  {
    var padded := "0" + NatToString(m);
    var s := padded[|padded| - 2..];
    if m < 10 then
      assert s == ['0'] + NatToString(m);
      TwoDigitValue(s);
      s
    else
      assert |NatToString(m / 10)| == 1;
      assert s == NatToString(m);
      s
  }

  /** `tti.getHours() + ":" + ("0" + tti.getMinutes()).slice(-2)`: hours unpadded, minutes padded. */
  function ClockText(t: int): (s: string)
    ensures 4 <= |s| <= 5 && s[|s| - 3] == ':'
    ensures AllDigits(s[..|s| - 3]) && DecimalValue(s[..|s| - 3]) == LocalHour(t)
    ensures AllDigits(s[|s| - 2..]) && DecimalValue(s[|s| - 2..]) == LocalMinute(t)
  {
    NatToString(LocalHour(t)) + ":" + TwoDigits(LocalMinute(t))
  }

  /** `formatTime`: a relative label below the threshold, else the clock time of `t`. */
  function FormatTime(t: int, now: int, threshold: int): (shown: TimeLabel)
    ensures threshold == 0 ==> shown.Clock?
    ensures shown == Now ==> now <= t < now + MinuteMs
    ensures shown == OneMinute ==> now + MinuteMs <= t < now + 2 * MinuteMs
    ensures shown.Minutes? ==>
      shown.count < threshold && shown.count * MinuteMs <= t - now < (shown.count + 1) * MinuteMs
    ensures shown.Clock? ==> shown.text == ClockText(t)
  {
    var min := MinutesUntil(t, now);
    if threshold != 0 && min == 0 then Now
    else if threshold != 0 && min == 1 then OneMinute
    else if threshold != 0 && min < threshold then Minutes(min)
    else Clock(ClockText(t))
  }

  /** The clock label reads back as the local hour and the two-digit local minute of `t`. */
  lemma ClockTextReadsBack(t: int)
    ensures var s := ClockText(t);
      var h := NatToString(LocalHour(t));
      s == h + ":" + s[|s| - 2..] &&
      DecimalValue(h) == LocalHour(t) &&
      (|h| == 2 <==> LocalHour(t) >= 10) &&
      AllDigits(s[|s| - 2..]) && DecimalValue(s[|s| - 2..]) == LocalMinute(t)
  {
    var s := ClockText(t);
    assert s[|s| - 2..] == TwoDigits(LocalMinute(t));
  }

  /**
   * A clock label with a two-digit hour has the `HH:MM` shape of a display
   * time, and the resolver reads the same hour and minute from it.
   */
  lemma ClockLabelIsDisplayTime(t: int)
    requires LocalHour(t) >= 10
    ensures DisplayTime.ClockAt(ClockText(t), 0)
    ensures DisplayTime.ClockHours(ClockText(t), 0) == LocalHour(t)
    ensures DisplayTime.ClockMinutes(ClockText(t), 0) == LocalMinute(t)
  {
    var h, m := NatToString(LocalHour(t)), TwoDigits(LocalMinute(t));
    assert |h| == 2;
    var s := ClockText(t);
    assert s[0] == h[0] && s[1] == h[1] && s[2] == ':' && s[3] == m[0] && s[4] == m[1];
    TwoDigitValue(h);
    TwoDigitValue(m);
  }

  /** Which label `formatTime` chooses, by the time left until `t`. */
  lemma FormatTimeCases(t: int, now: int, threshold: int)
    ensures FormatTime(t, now, threshold) == Now <==> threshold != 0 && now <= t < now + MinuteMs
    ensures FormatTime(t, now, threshold) == OneMinute <==>
      threshold != 0 && now + MinuteMs <= t < now + 2 * MinuteMs
    ensures FormatTime(t, now, threshold).Minutes? <==>
      threshold != 0 && MinutesUntil(t, now) < threshold && !(now <= t < now + 2 * MinuteMs)
    ensures FormatTime(t, now, threshold).Minutes? ==>
      var n := FormatTime(t, now, threshold).count;
      n != 0 && n != 1 && n < threshold && n * MinuteMs <= t - now < (n + 1) * MinuteMs
    ensures FormatTime(t, now, threshold).Clock? <==>
      threshold == 0 || (MinutesUntil(t, now) >= threshold && !(now <= t < now + 2 * MinuteMs))
    ensures FormatTime(t, now, threshold).Clock? ==> FormatTime(t, now, threshold).text == ClockText(t)
  {
    var m := MinutesUntil(t, now);
    assert m == 0 <==> now <= t < now + MinuteMs;
    assert m == 1 <==> now + MinuteMs <= t < now + 2 * MinuteMs;
  }

  /** With a positive threshold, a departure already past shows a negative minute count. */
  lemma PastDepartureCountsNegative(t: int, now: int, threshold: int)
    requires threshold > 0 && t < now
    ensures FormatTime(t, now, threshold).Minutes? && FormatTime(t, now, threshold).count < 0
  {
    assert MinutesUntil(t, now) < 0;
  }

  /** A zero threshold turns humanizing off: every instant shows its clock time. */
  lemma ZeroThresholdShowsClock(t: int, now: int)
    ensures FormatTime(t, now, 0) == Clock(ClockText(t))
  {
  }

  /** Labels at a threshold of 15 minutes, just below and above the minute boundaries. */
  lemma HumanizerExamples(now: int)
    ensures FormatTime(now + 59000, now, 15) == Now
    ensures FormatTime(now + 61000, now, 15) == OneMinute
    ensures FormatTime(now + 601000, now, 15) == Minutes(10)
    ensures FormatTime(now + 1000 * MinuteMs, now, 15).Clock?
    ensures FormatTime(now - 1000, now, 15) == Minutes(-1)
  {
    FormatTimeCases(now + 59000, now, 15);
    FormatTimeCases(now + 61000, now, 15);
    FormatTimeCases(now + 601000, now, 15);
    FormatTimeCases(now + 1000 * MinuteMs, now, 15);
    assert MinutesUntil(now + 601000, now) == 10;
    assert MinutesUntil(now - 1000, now) == -1;
  }

  /** The Font Awesome icon names the switch can produce. */
  const Icons: set<string> := {"bus", "subway", "ship", "train", "rocket"}

  /** The icon of every service the switch does not list. */
  const DefaultIcon: string := "rocket"

  /** The `switch (journey.service)` of getTableRow. */
  function ServiceIcon(service: string): (icon: string)
    ensures icon in Icons
  {
    if service == "Bus" || service == "Express" || service == "Airport bus" then "bus"
    else if service == "Light rail" then "subway"
    else if service == "Ferry" || service == "Boat" then "ship"
    else if service == "Train" then "train"
    else DefaultIcon
  }

  /** The services that get each icon: the switch's cases read backwards from the icon. */
  lemma ServiceIconPreimages(service: string)
    ensures ServiceIcon(service) == "bus" <==> service in ["Bus", "Express", "Airport bus"]
    ensures ServiceIcon(service) == "subway" <==> service == "Light rail"
    ensures ServiceIcon(service) == "ship" <==> service in ["Ferry", "Boat"]
    ensures ServiceIcon(service) == "train" <==> service == "Train"
    ensures ServiceIcon(service) == DefaultIcon <==>
      service !in ["Bus", "Express", "Airport bus", "Light rail", "Ferry", "Boat", "Train"]
  {
  }
}
