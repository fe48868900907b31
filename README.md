# Watch face core: sunrise/sunset selector and inbound message decoder

This project models the two pieces of logic in the Pebble watch face's C
program (`src/c/watchface.c`) that are more than toolkit plumbing. It also
proves properties of them.

- **The sunrise/sunset selector** (`show_sunrise_sunset`). The face keeps the
  last sample it received: a receipt stamp and the hour and minute bytes of
  sunrise, sunset and next sunrise. If no sample has arrived, the selector
  does nothing. Otherwise it turns the local time, the sunrise and the
  sunset into minutes of the day, each stored in a `uint16_t`. It picks the
  sunrise while the time is not past it, then the sunset, then the next
  sunrise. It writes the choice as `"%02i:%02i"` into a 6-byte buffer with
  `snprintf`.
- **The inbound message decoder** (`inbox_received_callback`). It walks the
  message's tuples in order. There are four known keys. Each has a required
  payload type and length: a 4-byte integer for SURFACE_PRESSURE,
  TEMPERATURE and APPARENT_TEMPERATURE, and a 6-byte array for
  SUNRISE_SUNSET. A wrong type or length ends the whole message (`break`).
  An unknown key is skipped. An integer payload is read as an `int32`,
  narrowed to `int16_t`, and formatted into its own buffer. Pressure uses
  `"Q%04i"` in 6 bytes. Each temperature uses `"%3i°C"` in 7 bytes. A
  sunrise/sunset payload replaces the whole sample, stamped with the receipt
  time, and re-runs the selector.
- **The minute tick** (`tick_handler`). It re-runs the selector. It asks the
  phone for fresh weather when `tm_min % 30 == 0`.

Layout, one module per file:

- `c_format.dfy` (module `CFormat`): printf's `%i` with a width and with
  space or zero padding. `snprintf`'s bounded write. C strings. A
  reference reader `ParseInt` is the partner of the formatting. One char
  of a buffer stands for one byte. The `°` of `"%3i°C"` is its two UTF-8
  bytes C2 B0.
- `message.dfy` (module `Message`): tuples, payload bytes, the
  little-endian `int32` read and its inverse `EncodeInt32`, and the
  `int16_t` narrowing.
- `sunrise_sunset.dfy` (module `SunriseSunset`): the sample, the selection
  rule, the `"%02i:%02i"` label, and lemmas on the rule.
- `face_state.dfy` (module `FaceState`): the whole state as a value, and
  what the selector, one decode-loop iteration (`Step`) and the full
  decoder (`Decode`) do to it.
- `decode_properties.dfy` (module `DecodeProperties`): the decoder's
  properties. These cover fail-fast, skipping unknown keys, the writes of
  valid tuples, buffer capacity, the persistence of the sample and
  idempotence. End-to-end lemmas go from the phone's encoded value to the
  text shown.
- `watchface.dfy` (module `Watchface`): class `WatchFace`. It holds the sample
  in a field and the four buffers as arrays written in place. Each callback is a
  method proved to change the state exactly as the `FaceState` function
  says. The decoder is a `while` loop with `break`, as in the C.

The program's clock reads become parameters. `now` is the `localtime`
result the selector reads. `tick` is the time handed to the tick handler.
`receivedAt` is the `time(NULL)` stamp of a new sample. `localtime`
guarantees `tm_hour < 24` and `tm_min < 60`. Lemmas that depend on this
require `LocalTime.Valid()`; the operations do not.

Points of behaviour that are easy to misread, modelled as the code has
them:

- The pressure is always zero-padded (`"Q%04i"`).
- The refresh request is sent at minutes 0 and 30 (`tm_min % 30 == 0`),
  not only on the hour.
- Narrowing an `int32` to `int16_t` wraps modulo 2^16, as the watch's
  toolchain does. C leaves this implementation-defined.
- "No data" means `updated == 0`. A sample stamped with time 0 therefore
  still counts as no data. `SampleStaysPresent` needs a non-zero stamp for
  this reason.

## Model

| member | source | states |
|---|---|---|
| `Watchface.WatchFace.constructor` | src/c/watchface.c:11-33 | the buffers are zero-filled arrays of their declared sizes (6, 7, 7, 6) and the sample is empty, so nothing is shown yet |
| `Watchface.WatchFace.ShowSunriseSunset` | src/c/watchface.c:35-66 | writes the sunrise/sunset buffer exactly as the selector function says (nothing without a sample) and changes nothing else |
| `Watchface.WatchFace.Tick` | src/c/watchface.c:155-164 | re-runs the selector, and requests a refresh exactly when the tick's minute is a multiple of 30 |
| `Watchface.WatchFace.InboxReceived` | src/c/watchface.c:166-242 | the loop leaves the sample and all four buffers exactly as `Decode` of the tuple sequence says, whether it runs to the end or breaks |
| `CFormat.WriteSnprintf` | src/c/watchface.c:182 | the array becomes the truncated text, then a NUL, then its old bytes; it returns the untruncated length |
| `CFormat.Snprintf` | src/c/watchface.c:64 | the buffer keeps its size and holds a NUL whenever its size is non-zero |
| `CFormat.Truncate` | src/c/watchface.c:64 | snprintf keeps a prefix of the text: the whole text when it fits, otherwise exactly its first capacity − 1 characters |
| `CFormat.CStringOfSnprintf` | src/c/watchface.c:64 | after snprintf, the C string in the buffer is exactly the text truncated to capacity − 1, whatever the buffer held before |
| `CFormat.SnprintfIdempotent` | src/c/watchface.c:182 | writing the same text twice leaves the same bytes as writing it once |
| `CFormat.FormatInt` | src/c/watchface.c:182 | printf's `%Wi` and `%0Wi` conversion; the output is at least `width` characters long; what it reads back as, its exact length and its padding are stated by `FormatIntRoundTrip`, `FormatIntLength` and `FormatIntPadding` |
| `CFormat.FormatIntPadding` | src/c/watchface.c:197 | `%0Wi` pads with zeros after the optional '-', so every character but the sign is a digit; `%Wi` pads with spaces before the sign and the digits |
| `CFormat.Digits` | src/c/watchface.c:197 | the numeral is non-empty, all decimal digits, with no leading zero |
| `CFormat.FormatIntRoundTrip` | src/c/watchface.c:182 | `%Wi` and `%0Wi` output reads back as the formatted integer for every width and sign |
| `CFormat.FormatIntLength` | src/c/watchface.c:197 | the width is a minimum: the output is as long as the wider of the width and the numeral |
| `CFormat.DigitsLength` | src/c/watchface.c:182 | a numeral has at most k digits exactly when the number is below 10^k |
| `CFormat.FormatIntHasNoNul` | src/c/watchface.c:212 | formatted integers hold no NUL, so the C string ends where snprintf put the terminator |
| `Message.ReadInt32` | src/c/watchface.c:180 | the four little-endian payload bytes read as a value within the int32 range |
| `Message.ReadEncodeInt32` | src/c/watchface.c:180 | reading the four bytes that encode an int32 gives back that int32 |
| `Message.ToInt16` | src/c/watchface.c:180 | the narrowing gives an int16 congruent to the int32 modulo 2^16 |
| `Message.ToInt16Identity` | src/c/watchface.c:195 | a value already in the int16 range is not changed by the narrowing |
| `Message.ToInt16OfReadInt32` | src/c/watchface.c:210 | the value formatted depends only on the two low payload bytes, read as two's complement |
| `SunriseSunset.TotalMinutes` | src/c/watchface.c:40-46 | `h * 60 + m` stored in a `uint16_t`, i.e. modulo 2^16; `TotalMinutesNoWrap` states that it never wraps for the selector's inputs |
| `SunriseSunset.Choose` | src/c/watchface.c:51-62 | the selector's nested comparison on minutes of day; `ChooseCases`, `ChooseIsFirstUpcoming` and `ChooseIsEarliestUpcoming` state which event it picks |
| `SunriseSunset.Selected` | src/c/watchface.c:53-61 | the hour and minute bytes of the event `Choose` picks, as the three assignments copy them |
| `SunriseSunset.FormatClock` | src/c/watchface.c:64 | `"%02i:%02i"` of an hour and a minute byte; `FormatClockRoundTrip` states that a real clock time becomes exactly "HH:MM" |
| `SunriseSunset.TotalMinutesNoWrap` | src/c/watchface.c:40-46 | the `uint16_t` minutes of day never wrap, for byte-sized hours and minutes and for valid local times |
| `SunriseSunset.ChooseCases` | src/c/watchface.c:51-62 | sunrise iff now ≤ sunrise; sunset iff sunrise < now ≤ sunset; next sunrise iff now is past both |
| `SunriseSunset.ChooseIsFirstUpcoming` | src/c/watchface.c:51-62 | the choice equals a reference rule: the first of the day's events, in order, that is not past, else the next sunrise |
| `SunriseSunset.ChooseIsEarliestUpcoming` | src/c/watchface.c:51-62 | on an ordinary day the chosen event is the earliest not-past one, and the next sunrise is chosen exactly after sunset |
| `SunriseSunset.SunsetHiddenWhenNotAfterSunrise` | src/c/watchface.c:51-58 | if the sample's sunset is not after its sunrise, the sunset is never shown |
| `SunriseSunset.LabelTurnsAtSunset` | src/c/watchface.c:51-57 | the label changes with the clock alone: at the sunset minute it shows the sunset, at the following minute-of-day value the next sunrise (for a sunset at 23:59 that value is 1440, which no clock shows; at 00:00 the sunrise is shown) |
| `SunriseSunset.FormatClockRoundTrip` | src/c/watchface.c:64 | a real clock time is labelled as exactly five characters "HH:MM": two zero-padded digit pairs around a colon that read back as the hour and the minute |
| `FaceState.FormatPressure` | src/c/watchface.c:182 | the `"Q%04i"` text; `PressureFits` and `PressureShownAsSent` state when it fits and how it reads back |
| `FaceState.FormatTemperature` | src/c/watchface.c:197 | the `"%3i°C"` text, the degree sign as its two UTF-8 bytes; `TemperatureFits` and `TemperatureShownAsSent` state when it fits and how it reads back |
| `FaceState.ShowSunriseSunset` | src/c/watchface.c:35-66 | `show_sunrise_sunset` on the state value: without a sample the state is unchanged; otherwise only the label buffer is rewritten, at its size; `ShowWritesSelectedTime` states its text |
| `FaceState.RefreshDue` | src/c/watchface.c:159 | the tick handler's `tm_min % 30 == 0` test; `RefreshOnHalfHours` states it as minutes 0 and 30 |
| `FaceState.Step` | src/c/watchface.c:169-240 | one iteration of the decode loop: an unknown key continues with the state unchanged; only a SUNRISE_SUNSET tuple changes the sample, stamping it with the receipt time; `StepAbortsIffMalformed` states when it breaks |
| `FaceState.Decode` | src/c/watchface.c:166-242 | the whole callback: `Step` over the tuples in order, stopping at the first break; its properties are the `DecodeProperties` lemmas below |
| `FaceState.Initial` | src/c/watchface.c:11-33 | the start-up state is well formed and holds no sample |
| `DecodeProperties.StepAbortsIffMalformed` | src/c/watchface.c:169-238 | a tuple ends the message iff its key is known and its type or length differs from the format table; unknown keys never end it |
| `DecodeProperties.DecodeStopsAt` | src/c/watchface.c:170-178 | the result of a message is the result of the tuples before its first malformed one |
| `DecodeProperties.DecodeFailFast` | src/c/watchface.c:215-223 | for any tuples before and after a malformed one, the result is that of the tuples before it |
| `DecodeProperties.MalformedFirstChangesNothing` | src/c/watchface.c:185-193 | a malformed first tuple leaves sample and buffers unchanged, whatever follows |
| `DecodeProperties.DecodeSnoc` | src/c/watchface.c:168-241 | while no tuple so far was malformed, one more tuple is one more `Step` |
| `DecodeProperties.DecodeLoopStep` | src/c/watchface.c:166-242 | one loop turn: a malformed tuple yields the state reached so far; any other tuple extends the decoded prefix by one |
| `DecodeProperties.DecodeAppend` | src/c/watchface.c:168-241 | when the first part has no malformed tuple, decoding two parts equals decoding the second from the first's result |
| `DecodeProperties.DecodeSkipsUnknown` | src/c/watchface.c:236-240 | an unknown key changes nothing and decoding goes on with the next tuple |
| `DecodeProperties.ValidIntTupleWritesOwnBuffer` | src/c/watchface.c:169-213 | a valid integer tuple rewrites only its own buffer, with the narrowed value in its format; sample and other buffers are unchanged |
| `DecodeProperties.SunriseSunsetTupleReplacesSample` | src/c/watchface.c:214-235 | a valid sunrise/sunset tuple sets the sample to the stamp and bytes 0..5 in order, then re-runs the selector; the other buffers are unchanged |
| `DecodeProperties.ShowWithoutSample` | src/c/watchface.c:35-38 | with no sample the selector changes nothing |
| `DecodeProperties.ShowWritesSelectedTime` | src/c/watchface.c:40-65 | with a sample, the label's C string is the selected time as "%02i:%02i" cut to 5 characters, the whole "HH:MM" for a real clock time; nothing else changes |
| `DecodeProperties.DecodePreservesWellFormed` | src/c/watchface.c:166-242 | every buffer keeps its declared size with a NUL inside, so each displayed text is shorter than its buffer |
| `DecodeProperties.SampleStaysPresent` | src/c/watchface.c:225-233 | once a sample is held, no message (stamped non-zero) takes it away |
| `DecodeProperties.DecodeTwiceAsOnce` | src/c/watchface.c:166-242 | the same tuple twice in a row has the effect of once |
| `DecodeProperties.RefreshOnHalfHours` | src/c/watchface.c:159 | for a valid tick, a refresh is due exactly at minutes 0 and 30 |
| `DecodeProperties.PressureFits` | src/c/watchface.c:182 | "Q%04i" fits the 6-byte buffer exactly for values -999..9999 |
| `DecodeProperties.TemperatureFits` | src/c/watchface.c:197 | "%3i°C" fits the 7-byte buffer exactly for values -99..999; other values lose trailing bytes |
| `DecodeProperties.PressureShownAsSent` | src/c/watchface.c:180-183 | an encoded int32 pressure is shown as "Q%04i" of its int16 narrowing, truncated; a value in -999..9999 is shown whole, zero-padded (digits after the 'Q' and the optional '-'), and reads back as sent; only that buffer changes |
| `DecodeProperties.TemperatureShownAsSent` | src/c/watchface.c:195-213 | an encoded temperature is shown as "%3i°C" of its narrowing, truncated; a value in -99..999 reads back from the first three characters; only its buffer changes |
| `DecodeProperties.Pressure1013` | src/c/watchface.c:182 | a pressure of 1013 is shown as "Q1013" |
| `DecodeProperties.PressureWrongLength` | src/c/watchface.c:175-178 | a two-byte pressure tuple leaves the whole state unchanged and later tuples are not applied |
| `DecodeProperties.UnknownThenTemperature` | src/c/watchface.c:184-198 | an unknown key before a valid temperature does not stop it: the temperature is shown |
| `DecodeProperties.SunriseSunsetExample` | src/c/watchface.c:225-235 | the bytes [6,30,18,45,6,28] give sunrise 06:30, sunset 18:45 and next sunrise 06:28, and the label at once shows the one the rule picks for the current time |

## Left out

- `show_time` formats the time and date buffers with `strftime` and `clock_is_24h_style`. That is locale and library behaviour, so the model does not hold those two buffers. The tick is modelled only by its selector call and its refresh decision.
- Watchface.WatchFace.Tick: does not state the time and date buffers that `show_time` rewrites, for the reason above.
- Window, layer, font and graphics code is toolkit rendering and is not modelled. This covers `window_load`, `window_unload`, `draw_graphics`, `text_layer_set_text`, `init`, `deinit` and `main`.
- `APP_LOG`, the outbox begin and send, and the dropped, failed and sent callbacks are logging and host I/O. The outbox appears only as the returned "refresh requested" flag.
- `time(NULL)` and `localtime` are parameters. The source reads the clock anew in each `show_sunrise_sunset` call. The model uses one reading (`now`) for the whole of one inbox message. Likewise the source stamps each SUNRISE_SUNSET tuple with its own `time(NULL)` call (line 226), while the model uses one stamp (`receivedAt`) for every such tuple of a message.
- `dict_read_first` and `dict_read_next` are not modelled. The message is given as the already-split sequence of tuples. The tuple length is the payload's byte count, and its 16-bit field width is not modelled.
- The numeric `MESSAGE_KEY_*` values are generated by the build. The model uses a key datatype in which every other id is `Unknown`.
- Callback dispatch by the event loop is not modelled. Each callback is one method call that runs to completion.
- `src/pkjs/index.js` (geolocation, HTTP, JSON, time zones) is not part of this model. `EncodeInt32` stands for the 4-byte integer payload that its dictionary becomes on the watch.
