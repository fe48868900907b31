/** The watch face's process-wide state as a value, and what each callback
    does to it: the sunrise/sunset selector, the minute tick and the
    inbound message decoder. The class in module Watchface is proved to
    change its buffers exactly as these functions say. */
module FaceState {
  import opened CFormat
  import opened Message
  import opened SunriseSunset

  /** Declared sizes of the display buffers, in bytes, NUL included. */
  const SunriseSunsetCapacity: nat := 6
  const TemperatureCapacity: nat := 7
  const ApparentTemperatureCapacity: nat := 7
  const SurfacePressureCapacity: nat := 6

  /** The degree sign as its two UTF-8 bytes (C2 B0), then 'C'. */
  const DegreesCelsius: seq<char> := ['\U{00C2}', '\U{00B0}', 'C']

  /** `"Q%04i"`: a 'Q' and the value zero-padded to four characters. */
  function FormatPressure(v: int): seq<char>
  {
    "Q" + FormatInt(v, 4, true)
  }

  /** `"%3i°C"`: the value right-aligned in three characters, then °C. */
  function FormatTemperature(v: int): seq<char>
  {
    FormatInt(v, 3, false) + DegreesCelsius
  }

  /** The sample and the bytes of the four display buffers. */
  datatype Face = Face(
    sample: Sample,
    sunriseSunset: seq<char>,
    temperature: seq<char>,
    apparentTemperature: seq<char>,
    surfacePressure: seq<char>)

  /** Every buffer has its declared size and holds a NUL within it. */
  predicate WellFormed(f: Face)
  {
    |f.sunriseSunset| == SunriseSunsetCapacity && NUL in f.sunriseSunset &&
    |f.temperature| == TemperatureCapacity && NUL in f.temperature &&
    |f.apparentTemperature| == ApparentTemperatureCapacity && NUL in f.apparentTemperature &&
    |f.surfacePressure| == SurfacePressureCapacity && NUL in f.surfacePressure
  }

  /** The state at start-up: static storage is zero-filled. */
  function Initial(): (f: Face)
    ensures WellFormed(f) && !HasData(f.sample)
  {
    var six, seven := Repeat(NUL, 6), Repeat(NUL, 7);
    assert six[0] == NUL && seven[0] == NUL;
    Face(NoSample, six, seven, seven, six)
  }

  /** `show_sunrise_sunset` with the clock reading `now`. */
  function ShowSunriseSunset(f: Face, now: LocalTime): (r: Face)
    ensures !HasData(f.sample) ==> r == f
    ensures r.sample == f.sample && r.temperature == f.temperature &&
            r.apparentTemperature == f.apparentTemperature && r.surfacePressure == f.surfacePressure
    ensures |r.sunriseSunset| == |f.sunriseSunset|
  {
    if f.sample.updated == 0 then f
    else
      var (h, m) := Selected(f.sample, NowMinutes(now));
      f.(sunriseSunset := Snprintf(f.sunriseSunset, FormatClock(h, m)))
  }

  /** `tick_handler`'s request for fresh weather data. */
  function RefreshDue(tick: LocalTime): bool
  {
    tick.minute % 30 == 0
  }

  /** The result of handling one tuple: go on with the new state, or stop
      handling the message (the `break` of the decode loop). */
  datatype Outcome = Continue(face: Face) | Abort

  /** One iteration of the loop in `inbox_received_callback`. `now` is the
      clock reading and `receivedAt` the `time(NULL)` stamp. */
  function Step(f: Face, t: Tuple, now: LocalTime, receivedAt: int): (o: Outcome)
    ensures t.key.Unknown? ==> o == Continue(f)
    ensures o.Continue? && t.key != SunriseSunset ==> o.face.sample == f.sample
    ensures o.Continue? && t.key == SunriseSunset ==> o.face.sample.updated == receivedAt
  {
    match t.key
    case SurfacePressure =>
      if t.kind != TupleInt then Abort
      else if t.Length() != 4 then Abort
      else
        var pressure := ToInt16(ReadInt32(t.value));
        Continue(f.(surfacePressure := Snprintf(f.surfacePressure, FormatPressure(pressure))))
    case Temperature =>
      if t.kind != TupleInt then Abort
      else if t.Length() != 4 then Abort
      else
        var temperature := ToInt16(ReadInt32(t.value));
        Continue(f.(temperature := Snprintf(f.temperature, FormatTemperature(temperature))))
    case ApparentTemperature =>
      if t.kind != TupleInt then Abort
      else if t.Length() != 4 then Abort
      else
        var apparent := ToInt16(ReadInt32(t.value));
        Continue(f.(apparentTemperature := Snprintf(f.apparentTemperature, FormatTemperature(apparent))))
    case SunriseSunset =>
      if t.kind != TupleByteArray then Abort
      else if t.Length() != 6 then Abort
      else
        var d := t.value;
        var sample := Sample(receivedAt, d[0], d[1], d[2], d[3], d[4], d[5]);
        Continue(ShowSunriseSunset(f.(sample := sample), now))
    case Unknown(_) =>
      Continue(f)
  }

  /** `inbox_received_callback`: the tuples in order, stopping at the first
      one that aborts. */
  function Decode(f: Face, tuples: seq<Tuple>, now: LocalTime, receivedAt: int): Face
    decreases |tuples|
  {
    if tuples == [] then f
    else match Step(f, tuples[0], now, receivedAt)
      case Abort => f
      case Continue(g) => Decode(g, tuples[1..], now, receivedAt)
  }

  /** The message format's table: which payload type and length each known
      key must have. */
  function Expected(k: Key): Option<(TupleType, nat)>
  {
    match k
    case SurfacePressure => Some((TupleInt, 4))
    case Temperature => Some((TupleInt, 4))
    case ApparentTemperature => Some((TupleInt, 4))
    case SunriseSunset => Some((TupleByteArray, 6))
    case Unknown(_) => None
  }

  /** A tuple with a known key whose type or length is not the expected one. */
  predicate Malformed(t: Tuple)
  {
    Expected(t.key).Some? && Expected(t.key).value != (t.kind, t.Length())
  }

  predicate NoneMalformed(tuples: seq<Tuple>)
  {
    forall i :: 0 <= i < |tuples| ==> !Malformed(tuples[i])
  }
}
