/** The watch face's process-wide state as an object: the sunrise/sunset
    sample and the four display buffers the callbacks write in place. The
    event loop's callbacks are methods, each run to completion; the clock
    readings (`time`, `localtime`) are parameters. */
module Watchface {
  import opened CFormat
  import opened Message
  import opened SunriseSunset
  import opened FaceState
  import opened DecodeProperties

  class WatchFace {
    var sample: Sample
    const sunriseSunsetBuffer: array<char>
    const temperatureBuffer: array<char>
    const apparentTemperatureBuffer: array<char>
    const surfacePressureBuffer: array<char>

    /** The buffers have their declared sizes and are four distinct arrays. */
    ghost predicate Valid()
    {
      sunriseSunsetBuffer.Length == SunriseSunsetCapacity &&
      temperatureBuffer.Length == TemperatureCapacity &&
      apparentTemperatureBuffer.Length == ApparentTemperatureCapacity &&
      surfacePressureBuffer.Length == SurfacePressureCapacity &&
      sunriseSunsetBuffer != temperatureBuffer &&
      sunriseSunsetBuffer != apparentTemperatureBuffer &&
      sunriseSunsetBuffer != surfacePressureBuffer &&
      temperatureBuffer != apparentTemperatureBuffer &&
      temperatureBuffer != surfacePressureBuffer &&
      apparentTemperatureBuffer != surfacePressureBuffer
    }

    /** The object's state as a value of FaceState. */
    ghost function View(): Face
      reads this, sunriseSunsetBuffer, temperatureBuffer, apparentTemperatureBuffer, surfacePressureBuffer
    {
      Face(sample, sunriseSunsetBuffer[..], temperatureBuffer[..],
           apparentTemperatureBuffer[..], surfacePressureBuffer[..])
    }

    /** Program start: zero-filled static storage, no sample. */
    constructor ()
      ensures Valid() && View() == Initial()
      ensures fresh(sunriseSunsetBuffer) && fresh(temperatureBuffer)
      ensures fresh(apparentTemperatureBuffer) && fresh(surfacePressureBuffer)
    {
      sample := NoSample;
      sunriseSunsetBuffer := new char[SunriseSunsetCapacity](_ => NUL);
      temperatureBuffer := new char[TemperatureCapacity](_ => NUL);
      apparentTemperatureBuffer := new char[ApparentTemperatureCapacity](_ => NUL);
      surfacePressureBuffer := new char[SurfacePressureCapacity](_ => NUL);
      new;
      assert sunriseSunsetBuffer[..] == Repeat(NUL, 6);
      assert temperatureBuffer[..] == Repeat(NUL, 7);
      assert apparentTemperatureBuffer[..] == Repeat(NUL, 7);
      assert surfacePressureBuffer[..] == Repeat(NUL, 6);
    }

    /** `show_sunrise_sunset`, with `now` the local time it reads. */
    method ShowSunriseSunset(now: LocalTime)
      requires Valid()
      modifies sunriseSunsetBuffer
      ensures Valid()
      ensures View() == FaceState.ShowSunriseSunset(old(View()), now)
    {
      if sample.updated == 0 {
        return;
      }
      var sunriseTotal := TotalMinutes(sample.sunriseH as int, sample.sunriseM as int);
      var sunsetTotal := TotalMinutes(sample.sunsetH as int, sample.sunsetM as int);
      var localTotal := TotalMinutes(now.hour, now.minute);
      var hours, minutes;
      if localTotal > sunriseTotal {
        if localTotal > sunsetTotal {
          hours, minutes := sample.nextSunriseH, sample.nextSunriseM;
        } else {
          hours, minutes := sample.sunsetH, sample.sunsetM;
        }
      } else {
        hours, minutes := sample.sunriseH, sample.sunriseM;
      }
      var _ := WriteSnprintf(sunriseSunsetBuffer, FormatClock(hours, minutes));
    }

    /** `tick_handler`: `tick` is the time the tick carries, `now` the
        clock reading the selector makes. Returns whether an outbound
        refresh request is sent. */
    method Tick(tick: LocalTime, now: LocalTime) returns (refreshRequested: bool)
      requires Valid()
      modifies sunriseSunsetBuffer
      ensures Valid()
      ensures View() == FaceState.ShowSunriseSunset(old(View()), now)
      ensures refreshRequested == RefreshDue(tick)
    {
      ShowSunriseSunset(now);
      refreshRequested := tick.minute % 30 == 0;
    }

    /** `inbox_received_callback`: the tuples in delivery order; `now` is
        the local time the selector reads and `receivedAt` the `time(NULL)`
        stamp given to a new sample. */
    method InboxReceived(tuples: seq<Tuple>, now: LocalTime, receivedAt: int)
      requires Valid()
      modifies this, sunriseSunsetBuffer, temperatureBuffer, apparentTemperatureBuffer, surfacePressureBuffer
      ensures Valid()
      ensures View() == Decode(old(View()), tuples, now, receivedAt)
    {
      var i := 0;
      while i < |tuples|
        invariant 0 <= i <= |tuples|
        invariant Valid()
        invariant NoneMalformed(tuples[..i])
        invariant View() == Decode(old(View()), tuples[..i], now, receivedAt)
      {
        var t := tuples[i];
        DecodeLoopStep(old(View()), tuples, i, View(), now, receivedAt);
        match t.key {
          case SurfacePressure =>
            if t.kind != TupleInt {
              break;
            }
            if t.Length() != 4 {
              break;
            }
            var pressure := ToInt16(ReadInt32(t.value));
            var _ := WriteSnprintf(surfacePressureBuffer, FormatPressure(pressure));
          case Temperature =>
            if t.kind != TupleInt {
              break;
            }
            if t.Length() != 4 {
              break;
            }
            var temperature := ToInt16(ReadInt32(t.value));
            var _ := WriteSnprintf(temperatureBuffer, FormatTemperature(temperature));
          case ApparentTemperature =>
            if t.kind != TupleInt {
              break;
            }
            if t.Length() != 4 {
              break;
            }
            var apparent := ToInt16(ReadInt32(t.value));
            var _ := WriteSnprintf(apparentTemperatureBuffer, FormatTemperature(apparent));
          case SunriseSunset =>
            if t.kind != TupleByteArray {
              break;
            }
            if t.Length() != 6 {
              break;
            }
            var d := t.value;
            sample := Sample(receivedAt, d[0], d[1], d[2], d[3], d[4], d[5]);
            ShowSunriseSunset(now);
          case Unknown(_) =>
        }
        assert tuples[..i + 1] == tuples[..i] + [t];
        i := i + 1;
      }
      assert i == |tuples| ==> tuples[..i] == tuples;
    }
  }
}
