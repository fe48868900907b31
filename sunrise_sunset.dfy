/** The sunrise/sunset sample and the rule that picks which of its three
    times the watch face shows: the coming sunrise, then the sunset, then
    the next day's sunrise once both have passed. */
module SunriseSunset {
  import opened CFormat
  import opened Message

  /** `struct sunrise_sunset`: when the sample arrived (time_t seconds; 0
      means no sample yet) and six hour/minute bytes. */
  datatype Sample = Sample(
    updated: int,
    sunriseH: uint8, sunriseM: uint8,
    sunsetH: uint8, sunsetM: uint8,
    nextSunriseH: uint8, nextSunriseM: uint8)

  /** The zero-initialised static struct the program starts with. */
  const NoSample: Sample := Sample(0, 0, 0, 0, 0, 0, 0)

  predicate HasData(s: Sample) {
    s.updated != 0
  }

  /** A broken-down local time as `localtime` yields it (tm_hour, tm_min). */
  datatype LocalTime = LocalTime(hour: int, minute: int) {
    predicate Valid() {
      0 <= hour < 24 && 0 <= minute < 60
    }
  }

  /** Storing into a `uint16_t`: the value modulo 2^16. */
  function ToUint16(x: int): int {
    x % 0x1_0000
  }

  /** `h * 60 + m` stored in a `uint16_t`, as the selector computes every
      minute-of-day. */
  function TotalMinutes(h: int, m: int): int {
    ToUint16(h * 60 + m)
  }

  function SunriseMinutes(s: Sample): int {
    TotalMinutes(s.sunriseH as int, s.sunriseM as int)
  }

  function SunsetMinutes(s: Sample): int {
    TotalMinutes(s.sunsetH as int, s.sunsetM as int)
  }

  function NowMinutes(now: LocalTime): int {
    TotalMinutes(now.hour, now.minute)
  }

  /** Minutes of day never wrap: byte-sized hours and minutes, and valid
      local times, stay far below 2^16. */
  lemma TotalMinutesNoWrap(s: Sample, now: LocalTime)
    requires now.Valid()
    ensures SunriseMinutes(s) == s.sunriseH as int * 60 + s.sunriseM as int
    ensures SunsetMinutes(s) == s.sunsetH as int * 60 + s.sunsetM as int
    ensures 0 <= NowMinutes(now) < 24 * 60 && NowMinutes(now) == now.hour * 60 + now.minute
  {
  }

  datatype Milestone = Sunrise | Sunset | NextSunrise

  /** The selection in `show_sunrise_sunset`, on minutes of day. */
  function Choose(s: Sample, now: int): Milestone
  {
    if now > SunriseMinutes(s) then
      if now > SunsetMinutes(s) then NextSunrise else Sunset
    else
      Sunrise
  }

  /** The hour and minute bytes of a milestone of the sample. */
  function TimeOf(s: Sample, m: Milestone): (uint8, uint8)
  {
    match m
    case Sunrise => (s.sunriseH, s.sunriseM)
    case Sunset => (s.sunsetH, s.sunsetM)
    case NextSunrise => (s.nextSunriseH, s.nextSunriseM)
  }

  /** The hour and minute shown for the sample at minute-of-day `now`. */
  function Selected(s: Sample, now: int): (uint8, uint8)
  {
    TimeOf(s, Choose(s, now))
  }

  /** `"%02i:%02i"` of an hour and a minute. */
  function FormatClock(h: uint8, m: uint8): seq<char>
  {
    FormatInt(h as int, 2, true) + ":" + FormatInt(m as int, 2, true)
  }

  /** The three cases of the selection rule, each as an if-and-only-if. */
  lemma ChooseCases(s: Sample, now: int)
    ensures Choose(s, now) == Sunrise <==> now <= SunriseMinutes(s)
    ensures Choose(s, now) == Sunset <==> SunriseMinutes(s) < now <= SunsetMinutes(s)
    ensures Choose(s, now) == NextSunrise <==> SunriseMinutes(s) < now && SunsetMinutes(s) < now
  {
  }

  /** A reference reading of the rule: walk the day's events in order and
      take the first one that is not yet past; if all are past, take the
      fallback. */
  function FirstUpcoming(events: seq<(Milestone, int)>, now: int, fallback: Milestone): Milestone
  {
    if events == [] then fallback
    else if now <= events[0].1 then events[0].0
    else FirstUpcoming(events[1..], now, fallback)
  }

  lemma ChooseIsFirstUpcoming(s: Sample, now: int)
    ensures Choose(s, now)
         == FirstUpcoming([(Sunrise, SunriseMinutes(s)), (Sunset, SunsetMinutes(s))], now, NextSunrise)
  {
    var events := [(Sunrise, SunriseMinutes(s)), (Sunset, SunsetMinutes(s))];
    assert events[1..] == [(Sunset, SunsetMinutes(s))];
    assert events[1..][1..] == [];
    assert FirstUpcoming(events[1..][1..], now, NextSunrise) == NextSunrise;
    if now > SunriseMinutes(s) {
      assert FirstUpcoming(events, now, NextSunrise) == FirstUpcoming(events[1..], now, NextSunrise);
    }
  }

  function MinutesOf(s: Sample, m: Milestone): int
    requires m != NextSunrise
  {
    if m == Sunrise then SunriseMinutes(s) else SunsetMinutes(s)
  }

  /** On an ordinary day (sunrise not after sunset) the face shows the
      earliest of the day's events that is not past, and the next sunrise
      exactly when both are past. */
  lemma ChooseIsEarliestUpcoming(s: Sample, now: int)
    requires SunriseMinutes(s) <= SunsetMinutes(s)
    ensures Choose(s, now) == NextSunrise <==> now > SunsetMinutes(s)
    ensures Choose(s, now) != NextSunrise ==>
      now <= MinutesOf(s, Choose(s, now)) &&
      forall e: Milestone :: e != NextSunrise && now <= MinutesOf(s, e) ==> MinutesOf(s, Choose(s, now)) <= MinutesOf(s, e)
  {
  }

  /** When the sample's sunset is not after its sunrise the sunset is
      never shown. */
  lemma SunsetHiddenWhenNotAfterSunrise(s: Sample, now: int)
    requires SunsetMinutes(s) <= SunriseMinutes(s)
    ensures Choose(s, now) != Sunset
  {
  }

  /** The label can change without a new sample: the minute after sunset
      already shows the next sunrise. */
  lemma LabelTurnsAtSunset(s: Sample)
    requires SunriseMinutes(s) < SunsetMinutes(s)
    ensures Selected(s, SunsetMinutes(s)) == (s.sunsetH, s.sunsetM)
    ensures Selected(s, SunsetMinutes(s) + 1) == (s.nextSunriseH, s.nextSunriseM)
  {
  }

  lemma TwoDigits(v: int)
    requires 0 <= v < 100
    ensures |FormatInt(v, 2, true)| == 2
    ensures ParseInt(FormatInt(v, 2, true)) == Some(v)
  {
    FormatIntRoundTrip(v, 2, true);
    DigitsLength(v, 2);
  }

  /** For a real clock time the label is exactly "HH:MM": two zero-padded
      digit pairs around a colon that read back as the hour and the minute. */
  lemma FormatClockRoundTrip(h: uint8, m: uint8)
    requires h < 24 && m < 60
    ensures |FormatClock(h, m)| == 5 && FormatClock(h, m)[2] == ':'
    ensures ParseInt(FormatClock(h, m)[..2]) == Some(h as int)
    ensures ParseInt(FormatClock(h, m)[3..]) == Some(m as int)
    ensures AllDigits(FormatClock(h, m)[..2]) && AllDigits(FormatClock(h, m)[3..])
  {
    TwoDigits(h as int);
    TwoDigits(m as int);
    FormatIntPadding(h as int, 2, true);
    FormatIntPadding(m as int, 2, true);
    var r := FormatClock(h, m);
    assert r[..2] == FormatInt(h as int, 2, true);
    assert r[3..] == FormatInt(m as int, 2, true);
  }
}
