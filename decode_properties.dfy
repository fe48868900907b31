/** What the decoder and the selector promise, stated over the value-level
    state of module FaceState. */
module DecodeProperties {
  import opened CFormat
  import opened Message
  import opened SunriseSunset
  import opened FaceState

  /** A tuple stops the message exactly when it is malformed by the
      message format's table; unknown keys never stop it. */
  lemma StepAbortsIffMalformed(f: Face, t: Tuple, now: LocalTime, receivedAt: int)
    ensures Step(f, t, now, receivedAt) == Abort <==> Malformed(t)
  {
  }

  /** Everything from a malformed tuple on is ignored: the result is what
      the tuples before it produced. */
  lemma {:induction false} DecodeStopsAt(f: Face, tuples: seq<Tuple>, i: nat, now: LocalTime, receivedAt: int)
    requires i < |tuples| && Malformed(tuples[i])
    ensures Decode(f, tuples, now, receivedAt) == Decode(f, tuples[..i], now, receivedAt)
    decreases i
  {
    StepAbortsIffMalformed(f, tuples[0], now, receivedAt);
    if i > 0 {
      match Step(f, tuples[0], now, receivedAt)
      case Abort =>
      case Continue(g) =>
        assert tuples[..i][1..] == tuples[1..][..i - 1];
        DecodeStopsAt(g, tuples[1..], i - 1, now, receivedAt);
    }
  }

  /** Fail-fast, for any tuples around the malformed one. */
  lemma DecodeFailFast(f: Face, before: seq<Tuple>, bad: Tuple, after: seq<Tuple>, now: LocalTime, receivedAt: int)
    requires Malformed(bad)
    ensures Decode(f, before + [bad] + after, now, receivedAt) == Decode(f, before, now, receivedAt)
  {
    var tuples := before + [bad] + after;
    assert tuples[|before|] == bad && tuples[..|before|] == before;
    DecodeStopsAt(f, tuples, |before|, now, receivedAt);
  }

  /** A malformed first tuple leaves the whole state unchanged. */
  lemma MalformedFirstChangesNothing(f: Face, bad: Tuple, after: seq<Tuple>, now: LocalTime, receivedAt: int)
    requires Malformed(bad)
    ensures Decode(f, [bad] + after, now, receivedAt) == f
  {
    DecodeFailFast(f, [], bad, after, now, receivedAt);
    assert [] + [bad] + after == [bad] + after;
  }

  /** While no tuple so far was malformed, handling one more tuple is one
      more Step: the loop of the decoder computes Decode prefix by prefix. */
  lemma {:induction false} DecodeSnoc(f: Face, tuples: seq<Tuple>, i: nat, now: LocalTime, receivedAt: int)
    requires i < |tuples| && NoneMalformed(tuples[..i]) && !Malformed(tuples[i])
    ensures Step(Decode(f, tuples[..i], now, receivedAt), tuples[i], now, receivedAt)
         == Continue(Decode(f, tuples[..i + 1], now, receivedAt))
    decreases i
  {
    StepAbortsIffMalformed(f, tuples[0], now, receivedAt);
    if i == 0 {
      assert tuples[..0] == [];
      assert tuples[..1] == [tuples[0]];
    } else {
      assert tuples[..i][0] == tuples[0];
      var g := Step(f, tuples[0], now, receivedAt).face;
      assert tuples[..i][1..] == tuples[1..][..i - 1];
      assert tuples[..i + 1][1..] == tuples[1..][..i];
      var rest := tuples[1..][..i - 1];
      assert NoneMalformed(rest) by {
        forall j | 0 <= j < |rest| ensures !Malformed(rest[j]) {
          assert rest[j] == tuples[..i][j + 1];
        }
      }
      DecodeSnoc(g, tuples[1..], i - 1, now, receivedAt);
    }
  }

  /** One turn of the decoder's loop, from the state `reached` after the
      tuples before index i: a malformed tuple ends the message there, any
      other is one more Step. */
  lemma DecodeLoopStep(f: Face, tuples: seq<Tuple>, i: nat, reached: Face, now: LocalTime, receivedAt: int)
    requires i < |tuples| && NoneMalformed(tuples[..i])
    requires reached == Decode(f, tuples[..i], now, receivedAt)
    ensures Malformed(tuples[i]) ==> Decode(f, tuples, now, receivedAt) == reached
    ensures !Malformed(tuples[i]) ==>
      Step(reached, tuples[i], now, receivedAt) == Continue(Decode(f, tuples[..i + 1], now, receivedAt))
  {
    if Malformed(tuples[i]) {
      DecodeStopsAt(f, tuples, i, now, receivedAt);
    } else {
      DecodeSnoc(f, tuples, i, now, receivedAt);
    }
  }

  /** Messages compose: when the first part holds no malformed tuple, the
      second part is handled in the state the first part left. */
  lemma {:induction false} DecodeAppend(f: Face, first: seq<Tuple>, second: seq<Tuple>, now: LocalTime, receivedAt: int)
    requires NoneMalformed(first)
    ensures Decode(f, first + second, now, receivedAt) == Decode(Decode(f, first, now, receivedAt), second, now, receivedAt)
    decreases |first|
  {
    if first != [] {
      StepAbortsIffMalformed(f, first[0], now, receivedAt);
      var g := Step(f, first[0], now, receivedAt).face;
      assert (first + second)[0] == first[0];
      assert (first + second)[1..] == first[1..] + second;
      var rest := first[1..];
      assert NoneMalformed(rest) by {
        forall j | 0 <= j < |rest| ensures !Malformed(rest[j]) {
          assert rest[j] == first[j + 1];
        }
      }
      DecodeAppend(g, first[1..], second, now, receivedAt);
    } else {
      assert first + second == second;
    }
  }

  /** An unrecognised key changes nothing and the message goes on. */
  lemma DecodeSkipsUnknown(f: Face, t: Tuple, rest: seq<Tuple>, now: LocalTime, receivedAt: int)
    requires t.key.Unknown?
    ensures Decode(f, [t] + rest, now, receivedAt) == Decode(f, rest, now, receivedAt)
  {
    assert ([t] + rest)[1..] == rest;
  }

  /** A valid integer tuple rewrites only its own buffer, with the int16
      narrowing of its payload formatted as the source's format string
      says; the sample and the other buffers stay as they were. */
  lemma ValidIntTupleWritesOwnBuffer(f: Face, t: Tuple, now: LocalTime, receivedAt: int)
    requires t.key in {SurfacePressure, Temperature, ApparentTemperature}
    requires t.kind == TupleInt && t.Length() == 4
    ensures Step(f, t, now, receivedAt).Continue?
    ensures var g := Step(f, t, now, receivedAt).face;
      var v := ToInt16(ReadInt32(t.value));
      g.sample == f.sample && g.sunriseSunset == f.sunriseSunset &&
      g.surfacePressure == (if t.key == SurfacePressure then Snprintf(f.surfacePressure, FormatPressure(v)) else f.surfacePressure) &&
      g.temperature == (if t.key == Temperature then Snprintf(f.temperature, FormatTemperature(v)) else f.temperature) &&
      g.apparentTemperature == (if t.key == ApparentTemperature then Snprintf(f.apparentTemperature, FormatTemperature(v)) else f.apparentTemperature)
  {
  }

  /** A valid SUNRISE_SUNSET tuple replaces the whole sample, stamped with
      the receipt time and its six bytes in order, and re-runs the
      selector; the temperature and pressure buffers stay as they were. */
  lemma SunriseSunsetTupleReplacesSample(f: Face, t: Tuple, now: LocalTime, receivedAt: int)
    requires t.key == SunriseSunset && t.kind == TupleByteArray && t.Length() == 6
    ensures Step(f, t, now, receivedAt).Continue?
    ensures var g := Step(f, t, now, receivedAt).face;
      g.sample == Sample(receivedAt, t.value[0], t.value[1], t.value[2], t.value[3], t.value[4], t.value[5]) &&
      g == ShowSunriseSunset(f.(sample := g.sample), now) &&
      g.temperature == f.temperature && g.apparentTemperature == f.apparentTemperature &&
      g.surfacePressure == f.surfacePressure
  {
  }

  /** Without a sample the selector writes nothing. */
  lemma ShowWithoutSample(f: Face, now: LocalTime)
    requires !HasData(f.sample)
    ensures ShowSunriseSunset(f, now) == f
  {
  }

  /** With a sample, the label buffer's text is the selected time as
      "%02i:%02i", truncated to the buffer; for a real clock time it is
      the whole "HH:MM". Nothing else changes. */
  lemma ShowWritesSelectedTime(f: Face, now: LocalTime)
    requires WellFormed(f) && HasData(f.sample)
    ensures var g := ShowSunriseSunset(f, now);
      var (h, m) := Selected(f.sample, NowMinutes(now));
      WellFormed(g) && g.(sunriseSunset := f.sunriseSunset) == f &&
      CString(g.sunriseSunset) == Truncate(FormatClock(h, m), SunriseSunsetCapacity) &&
      (h < 24 && m < 60 ==> CString(g.sunriseSunset) == FormatClock(h, m))
  {
    var (h, m) := Selected(f.sample, NowMinutes(now));
    FormatIntHasNoNul(h as int, 2, true);
    FormatIntHasNoNul(m as int, 2, true);
    CStringOfSnprintf(f.sunriseSunset, FormatClock(h, m));
    if h < 24 && m < 60 {
      FormatClockRoundTrip(h, m);
    }
  }

  /** Every write keeps each buffer at its declared size with a NUL inside,
      so each displayed text is shorter than its buffer. */
  lemma {:induction false} DecodePreservesWellFormed(f: Face, tuples: seq<Tuple>, now: LocalTime, receivedAt: int)
    requires WellFormed(f)
    ensures var g := Decode(f, tuples, now, receivedAt);
      WellFormed(g) &&
      |CString(g.sunriseSunset)| < SunriseSunsetCapacity &&
      |CString(g.temperature)| < TemperatureCapacity &&
      |CString(g.apparentTemperature)| < ApparentTemperatureCapacity &&
      |CString(g.surfacePressure)| < SurfacePressureCapacity
    decreases |tuples|
  {
    if tuples != [] {
      match Step(f, tuples[0], now, receivedAt)
      case Abort =>
      case Continue(g) =>
        DecodePreservesWellFormed(g, tuples[1..], now, receivedAt);
    }
  }

  /** Once a sample with a non-zero stamp is held, no message removes it. */
  lemma {:induction false} SampleStaysPresent(f: Face, tuples: seq<Tuple>, now: LocalTime, receivedAt: int)
    requires HasData(f.sample) && receivedAt != 0
    ensures HasData(Decode(f, tuples, now, receivedAt).sample)
    decreases |tuples|
  {
    if tuples != [] {
      match Step(f, tuples[0], now, receivedAt)
      case Abort =>
      case Continue(g) =>
        SampleStaysPresent(g, tuples[1..], now, receivedAt);
    }
  }

  /** Receiving the same tuple twice in a row has the effect of once. */
  lemma DecodeTwiceAsOnce(f: Face, t: Tuple, now: LocalTime, receivedAt: int)
    ensures Decode(f, [t, t], now, receivedAt) == Decode(f, [t], now, receivedAt)
  {
    assert [t, t][1..] == [t];
    assert [t][1..] == [];
    match Step(f, t, now, receivedAt)
    case Abort =>
    case Continue(g) =>
      match t.key
      case SurfacePressure =>
        SnprintfIdempotent(f.surfacePressure, FormatPressure(ToInt16(ReadInt32(t.value))));
      case Temperature =>
        SnprintfIdempotent(f.temperature, FormatTemperature(ToInt16(ReadInt32(t.value))));
      case ApparentTemperature =>
        SnprintfIdempotent(f.apparentTemperature, FormatTemperature(ToInt16(ReadInt32(t.value))));
      case SunriseSunset =>
        var s := g.sample;
        var (h, m) := Selected(s, NowMinutes(now));
        SnprintfIdempotent(f.sunriseSunset, FormatClock(h, m));
      case Unknown(_) =>
  }

  /** The minute tick asks for fresh weather on the hour and at half past. */
  lemma RefreshOnHalfHours(tick: LocalTime)
    requires tick.Valid()
    ensures RefreshDue(tick) <==> tick.minute == 0 || tick.minute == 30
  {
  }

  /** "Q%04i" fits the 6-byte pressure buffer exactly for -999..9999. */
  lemma PressureFits(v: int)
    ensures |FormatPressure(v)| < SurfacePressureCapacity <==> -999 <= v <= 9999
  {
    FormatIntLength(v, 4, true);
    if v < 0 {
      DigitsLength(-v, 3);
    } else {
      DigitsLength(v, 4);
    }
  }

  /** "%3i°C" fits the 7-byte temperature buffers exactly for -99..999;
      any other value loses its last characters. */
  lemma TemperatureFits(v: int)
    ensures |FormatTemperature(v)| < TemperatureCapacity <==> -99 <= v <= 999
  {
    FormatIntLength(v, 3, false);
    if v < 0 {
      DigitsLength(-v, 2);
    } else {
      DigitsLength(v, 3);
    }
  }

  /** A message of the one tuple t. */
  lemma DecodeSingle(f: Face, t: Tuple, now: LocalTime, receivedAt: int)
    ensures Decode(f, [t], now, receivedAt)
         == match Step(f, t, now, receivedAt) case Abort => f case Continue(g) => g
  {
    assert [t][1..] == [];
  }

  /** End to end for pressure: the value the phone encodes is shown, after
      the int16 narrowing, as "Q%04i" cut to the buffer; a value in
      -999..9999 is shown whole, zero-padded, and reads back as sent. */
  lemma PressureShownAsSent(f: Face, v: int, now: LocalTime, receivedAt: int)
    requires WellFormed(f) && Int32Min <= v <= Int32Max
    ensures var g := Decode(f, [Tuple(SurfacePressure, TupleInt, EncodeInt32(v))], now, receivedAt);
      var text := CString(g.surfacePressure);
      g.(surfacePressure := f.surfacePressure) == f &&
      text == Truncate(FormatPressure(ToInt16(v)), SurfacePressureCapacity) &&
      (-999 <= v <= 9999 ==> |text| == 5 && text[0] == 'Q' && ParseInt(text[1..]) == Some(v) &&
                             (0 <= v ==> AllDigits(text[1..])) &&
                             (v < 0 ==> text[1] == '-' && AllDigits(text[2..])))
  {
    var t := Tuple(SurfacePressure, TupleInt, EncodeInt32(v));
    DecodeSingle(f, t, now, receivedAt);
    ReadEncodeInt32(v);
    var text := FormatPressure(ToInt16(v));
    FormatIntHasNoNul(ToInt16(v), 4, true);
    CStringOfSnprintf(f.surfacePressure, text);
    if -999 <= v <= 9999 {
      ToInt16Identity(v);
      PressureFits(v);
      FormatIntRoundTrip(v, 4, true);
      FormatIntPadding(v, 4, true);
      assert text[1..] == FormatInt(v, 4, true);
      assert text[2..] == FormatInt(v, 4, true)[1..];
    }
  }

  /** End to end for the two temperatures: shown as "%3i°C" of the
      narrowed value, cut to the buffer; a value in -99..999 is shown whole,
      its first three characters reading back as sent. */
  lemma TemperatureShownAsSent(f: Face, key: Key, v: int, now: LocalTime, receivedAt: int)
    requires key == Temperature || key == ApparentTemperature
    requires WellFormed(f) && Int32Min <= v <= Int32Max
    ensures var g := Decode(f, [Tuple(key, TupleInt, EncodeInt32(v))], now, receivedAt);
      var buf := if key == Temperature then g.temperature else g.apparentTemperature;
      var text := CString(buf);
      g.sample == f.sample && g.sunriseSunset == f.sunriseSunset && g.surfacePressure == f.surfacePressure &&
      (key == Temperature ==> g.apparentTemperature == f.apparentTemperature) &&
      (key == ApparentTemperature ==> g.temperature == f.temperature) &&
      text == Truncate(FormatTemperature(ToInt16(v)), TemperatureCapacity) &&
      (-99 <= v <= 999 ==> text[3..] == DegreesCelsius && ParseInt(text[..3]) == Some(v))
  {
    var t := Tuple(key, TupleInt, EncodeInt32(v));
    DecodeSingle(f, t, now, receivedAt);
    ReadEncodeInt32(v);
    var text := FormatTemperature(ToInt16(v));
    FormatIntHasNoNul(ToInt16(v), 3, false);
    assert NUL !in text;
    if key == Temperature {
      CStringOfSnprintf(f.temperature, text);
    } else {
      CStringOfSnprintf(f.apparentTemperature, text);
    }
    if -99 <= v <= 999 {
      ToInt16Identity(v);
      TemperatureFits(v);
      FormatIntRoundTrip(v, 3, false);
      FormatIntLength(v, 3, false);
      assert text[..3] == FormatInt(v, 3, false);
    }
  }

  /** A PRESSURE tuple of 1013 shows "Q1013". */
  lemma Pressure1013(f: Face, now: LocalTime, receivedAt: int)
    requires WellFormed(f)
    ensures CString(Decode(f, [Tuple(SurfacePressure, TupleInt, EncodeInt32(1013))], now, receivedAt).surfacePressure)
         == "Q1013"
  {
    PressureShownAsSent(f, 1013, now, receivedAt);
    PressureFits(1013);
    ToInt16Identity(1013);
    Format1013();
  }

  lemma Format1013()
    ensures FormatPressure(1013) == "Q1013"
  {
    assert Digits(1) == "1";
    assert Digits(10) == "10";
    assert Digits(101) == "101";
    assert Digits(1013) == "1013";
  }

  /** A PRESSURE tuple two bytes long changes nothing, and the tuples after
      it are not looked at. */
  lemma PressureWrongLength(f: Face, a: uint8, b: uint8, rest: seq<Tuple>, now: LocalTime, receivedAt: int)
    ensures Decode(f, [Tuple(SurfacePressure, TupleInt, [a, b])] + rest, now, receivedAt) == f
  {
    MalformedFirstChangesNothing(f, Tuple(SurfacePressure, TupleInt, [a, b]), rest, now, receivedAt);
  }

  /** An unknown key before a valid TEMPERATURE tuple does not stop it. */
  lemma UnknownThenTemperature(f: Face, unknown: Tuple, v: int, now: LocalTime, receivedAt: int)
    requires unknown.key.Unknown? && WellFormed(f) && -99 <= v <= 999
    ensures CString(Decode(f, [unknown, Tuple(Temperature, TupleInt, EncodeInt32(v))], now, receivedAt).temperature)
         == FormatTemperature(v)
  {
    var t := Tuple(Temperature, TupleInt, EncodeInt32(v));
    DecodeSkipsUnknown(f, unknown, [t], now, receivedAt);
    assert [unknown, t] == [unknown] + [t];
    TemperatureShownAsSent(f, Temperature, v, now, receivedAt);
    ToInt16Identity(v);
    TemperatureFits(v);
  }

  /** The bytes [6, 30, 18, 45, 6, 28] give sunrise 06:30, sunset 18:45 and
      next sunrise 06:28, and the label at once shows the one the rule
      picks for the current time. */
  lemma SunriseSunsetExample(f: Face, now: LocalTime, receivedAt: int)
    requires WellFormed(f) && now.Valid() && receivedAt != 0
    ensures var g := Decode(f, [Tuple(SunriseSunset, TupleByteArray, [6, 30, 18, 45, 6, 28])], now, receivedAt);
      var minutes := now.hour * 60 + now.minute;
      g.sample == Sample(receivedAt, 6, 30, 18, 45, 6, 28) &&
      CString(g.sunriseSunset) == (if minutes <= 6 * 60 + 30 then "06:30"
                                   else if minutes <= 18 * 60 + 45 then "18:45"
                                   else "06:28")
  {
    var t := Tuple(SunriseSunset, TupleByteArray, [6, 30, 18, 45, 6, 28]);
    DecodeSingle(f, t, now, receivedAt);
    var s := Sample(receivedAt, 6, 30, 18, 45, 6, 28);
    SunriseSunsetTupleReplacesSample(f, t, now, receivedAt);
    var g := ShowSunriseSunset(f.(sample := s), now);
    assert Decode(f, [t], now, receivedAt) == g;
    TotalMinutesNoWrap(s, now);
    var hm := Selected(s, NowMinutes(now));
    ShowWritesSelectedTime(f.(sample := s), now);
    assert CString(g.sunriseSunset) == FormatClock(hm.0, hm.1);
    ExampleLabels();
  }

  lemma ExampleLabels()
    ensures FormatClock(6, 30) == "06:30"
    ensures FormatClock(18, 45) == "18:45"
    ensures FormatClock(6, 28) == "06:28"
  {
    assert Digits(6) == "6" && Digits(30) == "30" && Digits(18) == "18";
    assert Digits(45) == "45" && Digits(28) == "28";
    assert FormatInt(6, 2, true) == "06";
  }
}
