# SML reader: a verified model

This project models the firmware of an ESP8266 that reads an electricity
meter's SML (Smart Message Language) transport frames from an optical serial
interface. The firmware validates each frame with CRC-16/X-25, decodes three
OBIS metrics (power in, power out, current power), and publishes them as
32-bit milli-unit values in the four user registers of an emulated BAE910
OneWire slave.

The model follows `src/main.cpp`. It has these modules:

- `Bytes` (bytes.dfy): the platform's fixed-width integers written out. A
  byte, the 32-bit `unsigned long` of `millis()`, the `int32_t` register, and
  the two's-complement reinterpretations the decoder performs.
- `Crc16` (crc.dfy): CRC-16/X-25 by its bitwise definition (RFC 1662,
  Appendix C.2), the frame acceptance rule, and its equivalence with the
  RFC 1662 receiver check.
- `Tlv` (tlv.dfy): the metric table, the `memmem` search, and the pointer walk
  over the five TLV fields after an OBIS pattern.
  - Each is a pure specification function plus the array method that runs it.
  - An encoder of list entries gives a round trip.
- `Publisher` (publisher.dfy): conversion to milli-units and the switch over
  the four registers, as functions and as the array method.
- `Framing` (framing.dfy): the four-state framing machine as pure functions
  on a value snapshot of the globals.
  - Each state routine consumes bytes from an input sequence until it
    transitions or no byte is available.
  - `Tick` is `run_current_state`.
- `FramingProperties` (framing_properties.dfy): what each state routine
  guarantees, the invariant every tick keeps, and the timeout.
- `FramingDelivery` (framing_delivery.dfy): a well-formed frame read tick by
  tick.
  - `Deliver` plays the serial line and `loop()`. Before each tick a chunk of
    bytes arrives behind the ones still unread, and the tick runs.
  - Each state routine, on the frame's next bytes, keeps exactly the bytes
    taken so far in the buffer before the cursor. It leaves bytes unread only
    when it moves on to a later state.
- `FramingEndToEnd` (framing_end_to_end.dfy): the whole frame.
  - Split into chunks in any way and fed on ticks that come on time, the frame
    lands in the buffer whole and ready for processing within two ticks
    without new bytes after its last chunk.
  - `Run` is `loop()` itself: it runs `run_current_state` on every tick,
    whatever the state. Up to the ready frame it runs the same ticks as
    `Deliver`; the tick after that processes exactly that frame, and the
    reader goes back to waiting for the next one.
- `Reader` (reader.dfy): class `SmlReader`, the globals updated in place over
  an `array` buffer.
  - The constructor (`setup`), `Reset`, `WaitForStartSequence`,
    `ReadMessage`, `ReadChecksum`, `ProcessMessage` and `RunCurrentState` are
    proved to produce exactly the snapshot the matching `Framing` function
    computes, and to keep the invariant.
  - `SetState` runs in the middle of a routine, where the invariant need not
    hold. It is proved only to change the globals as `Framing.Enter` says.

The model keeps three behaviours of the code that differ from what the
firmware's comments and an SML reader might lead one to expect:

- The scaled value is truncated toward zero by the cast to `uint32_t`, not
  rounded.
- A signed value shorter than eight bytes is not sign-extended (lemma
  `Tlv.SignedShortValueNotExtended`).
- Start-marker matching resets to zero on a mismatch. It is not a full
  substring search, so it misses a marker right after an extra escape byte
  (lemma `FramingProperties.ExtraEscapeMissesStart`).

## Model

| member | source | states |
|---|---|---|
| Bytes.LowNibble | src/main.cpp:229-246 | the `& 0x0f` length nibble of a TLV tag is below 16 |
| Bytes.Int8 | src/main.cpp:241 | the scaler byte read as `int8_t` lies in -128..127 and is congruent to the byte mod 256 |
| Bytes.Int64 | src/main.cpp:257 | the uint64 accumulator read as `int64_t` is in range, congruent mod 2^64, and unchanged below 2^63 |
| Bytes.WrapInt32 | src/main.cpp:265 | the 32-bit truncation of the published value is congruent mod 2^32 and exact for values already in `int32_t` range |
| Bytes.ElapsedU32 | src/main.cpp:306 | `millis() - last_state_reset` on 32-bit unsigned: the plain difference, or the difference plus 2^32 after a wrap |
| Crc16.X25Of | src/main.cpp:200 | the byte loop over the first `length` bytes computes `X25`, the `x25` library call, of exactly those bytes |
| Crc16.FcsAppend | src/main.cpp:200 | the running FCS over `a + b` is the FCS over `b` started from the FCS over `a` |
| Crc16.AcceptedIffGoodFcs | src/main.cpp:200-207 | the checksum comparison accepts a frame exactly when the FCS over the whole frame, trailer included, is the RFC 1662 good value 0xF0B8 |
| Crc16.AcceptedUnfolded | src/main.cpp:200-204 | proof step: the acceptance rule equals "complemented running FCS of the data == little-endian trailer" |
| Crc16.AcceptedByParts | src/main.cpp:200-204 | proof step: the acceptance rule is the comparison of the computed CRC with the byte-swapped trailer |
| Crc16.TrailerFold | src/main.cpp:200-202 | the FCS over a frame is the FCS over its data followed by its two trailer bytes |
| Crc16.ComplementMatches | src/main.cpp:202-204 | a complemented register equals a little-endian byte pair exactly when those two bytes drive the register to 0xF0B8 |
| Crc16.TrailerUnique | src/main.cpp:200-207 | exactly one trailer completes a body: the body's CRC, low byte first; every other pair is rejected |
| Crc16.AcceptedAppended | src/main.cpp:200-204 | proof step: for a frame given as a body and two trailer bytes, acceptance is CRC == high byte << 8 \| low byte |
| Crc16.CheckValue | src/main.cpp:200 | `X25` meets the reference check value of CRC-16/X-25: "123456789" gives 0x906E |
| Tlv.FirstOccurrenceFrom | src/main.cpp:219 | the result is an index at or after `k` where the pattern occurs and no earlier index from `k` has it; None means no index at or after `k` has it |
| Tlv.FirstOccurrence | src/main.cpp:219 | `memmem` over the frame: the first index where the pattern occurs, or none exactly when it occurs nowhere |
| Tlv.FindPattern | src/main.cpp:218-219 | the naive scan over `buffer[0..length)` returns the first occurrence of the pattern, or none |
| Tlv.MatchesAt | src/main.cpp:219 | the inner comparison reports exactly whether the pattern occurs at index `k` |
| Tlv.Accumulate | src/main.cpp:249-255 | the uint64 accumulator stays below 2^64 |
| Tlv.AccumulateIsBigEndian | src/main.cpp:249-255 | shifting bytes into the uint64 yields the big-endian number of the payload mod 2^64 (high bytes of long payloads are lost) |
| Tlv.BigEndianBound | src/main.cpp:249-255 | a big-endian number of n bytes is below 256^n |
| Tlv.ShortPayloadExact | src/main.cpp:249-255 | payloads of at most eight bytes are accumulated without loss |
| Tlv.AccumulatePayload | src/main.cpp:249-255 | the `while (--nlen)` loop leaves the accumulator of the bytes it read |
| Tlv.DecodeFields | src/main.cpp:226-257 | a decoded entry has an `int8_t` scaler and an `int64_t` value |
| Tlv.DecodeValue | src/main.cpp:244-257 | a decoded value keeps the unit and scaler read before it and lies in `int64_t` range |
| Tlv.DecodeFieldsAt | src/main.cpp:226-257 | the cursor walk over the array returns exactly what `DecodeFields` specifies |
| Tlv.ReadValue | src/main.cpp:244-257 | the value part of the walk returns exactly what `DecodeValue` specifies |
| Tlv.DecodeMetric | src/main.cpp:218-226 | a metric whose pattern occurs nowhere in the frame is absent; otherwise it is exactly the TLV walk (`DecodeFields`) started right after the first occurrence of its pattern |
| Tlv.TypeIgnored | src/main.cpp:245-257 | both branches of the `type == 0x50` choice store the same `int64_t`: value tags of equal length decode alike whatever their type bits |
| Tlv.DecodeMetricAt | src/main.cpp:218-257 | search then walk returns exactly what `DecodeMetric` specifies |
| Tlv.EncodeField | src/main.cpp:229-247 | a field's tag carries the field's total length, payload included, and the payload follows the tag |
| Tlv.DecodeEncoded | src/main.cpp:226-257 | round trip: wherever a well-formed entry is written, decoding from its start gives its unit, its scaler and its value payload |
| Tlv.EntryLaidOut | src/main.cpp:228-247 | the five tags of a written entry lie where the cursor arithmetic looks for them, and the value payload follows the last one |
| Tlv.LeadingFieldsAt | src/main.cpp:228-242 | skipping status, time, unit and scaler by their tag lengths lands on what follows them |
| Tlv.DecodeLaidOut | src/main.cpp:226-257 | with the tags where the walk looks, the decoder yields exactly the expected metric value |
| Tlv.ZeroLengthWalk | src/main.cpp:244-251 | a value tag of length 0 after well-laid-out leading fields makes the metric absent |
| Tlv.FieldThen | src/main.cpp:229-242 | the tag of a written field sits at its start and what follows the field starts `len` bytes later |
| Tlv.FieldAt | src/main.cpp:244-255 | a written field's tag gives its length and its payload follows the tag |
| Tlv.SignedShortValueNotExtended | src/main.cpp:245-257 | a signed value shorter than eight bytes decodes to its unsigned big-endian number, never a negative one |
| Tlv.ExampleEncoding | src/main.cpp:226-257 | the example entry's bytes are five well-formed fields standing for 300 with unit 30 and scaler -1 |
| Tlv.PowerInExample | src/main.cpp:32-35 | the power-in pattern followed by the example entry decodes to 300, unit 30, scaler -1, in any surrounding frame where it is the first match |
| Tlv.PowerInExampleFound | src/main.cpp:218-257 | the search finds the power-in pattern at the start of a frame and the entry after it decodes |
| Tlv.ZeroLengthValueAbsent | src/main.cpp:246-251 | a value tag of length 0 makes the metric absent, whatever follows it |
| Publisher.SlotOf | src/main.cpp:266-285 | the `switch (i)`: metrics 0 to 3 go to the register with their own index, every later one to none |
| Publisher.Pow10 | src/main.cpp:265 | a power of ten is at least 1 |
| Publisher.TruncDiv | src/main.cpp:265 | the floating-point cast truncates toward zero: the quotient is bounded from both sides for either sign |
| Publisher.MilliUnitsExact | src/main.cpp:265 | `MilliUnits`, the value times 10^scaler times 1000: for scalers of at least -3 no precision is lost, the milli-units divide back to the raw value with no remainder |
| Publisher.RegisterValue | src/main.cpp:265 | what a register receives is the milli-unit value mod 2^32, and exactly that value when it fits in `int32_t` |
| Publisher.PublishAll | src/main.cpp:263-286 | publishing yields four registers |
| Publisher.Unslotted | src/main.cpp:280-285 | the metrics reported as having no register are exactly indices 4 onward |
| Publisher.PublishAllAt | src/main.cpp:263-286 | `PublishOne` applied in table order: register `j` holds metric `j`'s register value when it was decoded and keeps its content otherwise |
| Publisher.PublishIdempotent | src/main.cpp:263-286 | publishing the same values twice leaves the registers as publishing once |
| Publisher.Publish | src/main.cpp:262-286 | the loop over the array leaves exactly the registers of `PublishAll` and reports exactly the unslotted metrics |
| Publisher.ExampleRegisterValue | src/main.cpp:265 | 300 with scaler -1 is published as 30000 |
| Framing.Enter | src/main.cpp:92-114 | `set_state` sets the state; entering the start state zeroes the cursor and restarts the clock; entering the trailer state arms a countdown of 3; nothing else changes |
| Framing.WaitForStart | src/main.cpp:127-143 | the unread input is a suffix of the input |
| Framing.ReadMessage | src/main.cpp:146-175 | the unread input is a suffix of the input |
| Framing.ReadChecksum | src/main.cpp:178-195 | the unread input is a suffix of the input |
| Framing.DecodeAll | src/main.cpp:216-259 | one entry per configured metric, in table order; entry `i` is absent when metric `i`'s pattern occurs nowhere, and otherwise exactly the TLV walk (`DecodeFields`) started right after the first occurrence of that pattern |
| FramingProperties.WaitForStartOutcome | src/main.cpp:127-143 | the start state either uses up all input and stays, or stops right after the marker with the cursor at 8; the countdown, the clock and the registers are unchanged |
| FramingProperties.EightBytesAreNoEnd | src/main.cpp:14-15 | a buffer beginning with the start marker does not end with the end marker at 8 |
| FramingProperties.WaitForStartByte | src/main.cpp:129-132 | a byte that does not complete the marker hands the rest of the input to the same routine |
| FramingProperties.StartMatchSound | src/main.cpp:129-141 | the cursor never claims more than was received: the bytes seen end with the first `position` marker bytes |
| FramingProperties.StartMatchSoundStep | src/main.cpp:129-132 | proof step: the inductive step of the soundness argument |
| FramingProperties.MatchStartByteMoves | src/main.cpp:131-132 | `MatchStartByte`: the byte is stored at the cursor, which moves on exactly when the byte is the next marker byte and drops to 0 otherwise |
| FramingProperties.MatchStartByteSound | src/main.cpp:131-132 | matching one byte keeps the cursor honest about the bytes seen |
| FramingProperties.StartMatchCompletes | src/main.cpp:129-141 | when the rest of the marker arrives in one piece, the start state moves to the body state right after it |
| FramingProperties.StartMatchAdvances | src/main.cpp:129-142 | part of the marker arriving without completing it is consumed whole and advances the cursor by its length, so a marker split across ticks is matched piece by piece |
| FramingProperties.ExtraEscapeMissesStart | src/main.cpp:131-132 | an extra 0x1B before the start marker makes the matcher miss it |
| FramingProperties.StartByteThen | src/main.cpp:129-132 | the same step for input written as a first byte and the rest |
| FramingProperties.EndAfterStart | src/main.cpp:159-173 | an end marker found after the start marker lies wholly after it |
| FramingProperties.EndMarkerFirstByte | src/main.cpp:159-165 | a buffer that ends with the end marker holds the escape byte five bytes back |
| FramingProperties.ReadMessageOutcome | src/main.cpp:146-175 | the body state uses up its input and keeps reading, or arms the 3-byte trailer after the byte that completes the end marker, or starts over without consuming a byte when only the trailer's room is left; it keeps the invariant |
| FramingProperties.ReadMessageOverflow | src/main.cpp:151-155 | a byte that arrives with only the trailer's room left makes the body state start over without consuming it |
| FramingProperties.ReadMessageOutcomeEnd | src/main.cpp:156-171 | the byte that completes the end marker moves the body state to the trailer state with a countdown of 3 |
| FramingProperties.ReadMessageOutcomeStep | src/main.cpp:148-174 | proof step: the inductive step of the body state's outcome |
| FramingProperties.ReadMessageWrites | src/main.cpp:156 | the body state writes the bytes it consumes at the cursor, in order, and nothing else |
| FramingProperties.ReadMessageWritesStep | src/main.cpp:156 | proof step: the inductive step of the write property |
| FramingProperties.ReadMessageByte | src/main.cpp:148-174 | one byte in the body state: overflow, end marker found, or on to the next byte |
| FramingProperties.ReadMessageKeepsInvariant | src/main.cpp:146-175 | the body state keeps the invariant |
| FramingProperties.EndsWithEndPrefix | src/main.cpp:159-165 | whether the end marker is found depends only on the bytes before the cursor |
| FramingProperties.ReadMessageKeepsPrefix | src/main.cpp:156 | the body state does not touch the bytes before its cursor |
| FramingProperties.BodyByteKeepsInvariant | src/main.cpp:156-173 | appending a byte that completes no end marker keeps the invariant |
| FramingProperties.ReadMessageFirstEnd | src/main.cpp:159-173 | the body state moves to the trailer exactly at the first byte that completes an end marker |
| FramingProperties.ReadChecksumOutcome | src/main.cpp:178-195 | the trailer state takes as many bytes as the countdown asks and input offers, and goes on to processing exactly when the countdown reaches 0 |
| FramingProperties.ReadChecksumWrites | src/main.cpp:180-184 | the trailer state writes the bytes it consumes at the cursor and nothing else |
| FramingProperties.ReadChecksumWritesByte | src/main.cpp:180-184 | proof step: the inductive step of the write property |
| FramingProperties.ReadChecksumByte | src/main.cpp:180-184 | one trailer byte is stored and the countdown decremented |
| FramingProperties.ReadChecksumStops | src/main.cpp:180-194 | the loop stops when the countdown is 0 or no byte is available, and goes on to processing only in the first case |
| FramingProperties.ReadChecksumKeepsInvariant | src/main.cpp:178-195 | the trailer state keeps the invariant |
| FramingProperties.TrailerKeepsInvariant | src/main.cpp:180-194 | any machine the trailer state can reach, with the bytes before the cursor kept and processing exactly when the countdown ran out, satisfies the invariant |
| FramingProperties.ReadChecksumKeepsPrefix | src/main.cpp:182 | the trailer state does not touch the bytes before its cursor |
| FramingProperties.ProcessMessageOutcome | src/main.cpp:197-300 | `Framing.ProcessMessage`: processing consumes nothing and always starts over; a rejected frame leaves the registers alone; an accepted frame sets register `j` to the value of metric `j` when it decodes and leaves it alone otherwise |
| FramingProperties.ResetKeepsInvariant | src/main.cpp:117-124 | `Framing.Reset`: `reset` waits for the start marker with the cursor at 0 and the clock restarted, keeps the buffer and the registers, and establishes the invariant |
| FramingProperties.InitialInvariant | src/main.cpp:317-330 | `Framing.Initial`: after `setup` the reader waits for the start marker, with cursor 0, the clock at `now` and the registers given, and the invariant holds |
| FramingProperties.TickKeepsInvariant | src/main.cpp:302-315 | `Framing.Tick` and `Framing.RunState`: every tick keeps the invariant and consumes input only from the front |
| FramingProperties.TimeoutStartsOver | src/main.cpp:306-313 | `Framing.TimedOut`: a tick more than 30 s after the last reset abandons the frame in progress and runs the start state |
| FramingProperties.IdleTick | src/main.cpp:302-315 | with no byte available, a tick outside processing changes nothing except the timeout reset |
| FramingProperties.TimeoutAcrossWrap | src/main.cpp:306 | the timeout works across the wrap-around of `millis()` |
| FramingDelivery.ReadingTickIsTick | src/main.cpp:302-315 | outside the processing state, the reading tick that `Deliver` runs is `run_current_state` |
| FramingDelivery.DeliverTicks | src/main.cpp:332-341 | `FramingDelivery.Deliver`, `loop()` up to a ready frame: until a frame is ready, `Deliver` is one `run_current_state` on the unread bytes and the first chunk, then the rest from where it left off |
| FramingDelivery.StartTick | src/main.cpp:127-143 | on the next bytes of a well-formed frame, the start state keeps exactly the frame's bytes taken so far and leaves bytes unread only after moving on to the body |
| FramingDelivery.BodyTick | src/main.cpp:146-175 | on the next bytes of a well-formed frame, the body state stops exactly after the frame's end marker and never overflows |
| FramingDelivery.TrailerTick | src/main.cpp:178-195 | on the next bytes of a well-formed frame, the trailer state takes them all and the countdown is what the frame has left |
| FramingDelivery.FrameTick | src/main.cpp:302-315 | a tick on time on the next bytes of a well-formed frame keeps exactly the bytes taken so far in the buffer and leaves bytes unread only when it moves to a later state |
| FramingDelivery.DeliverProgress | src/main.cpp:127-195 | ticks on time whose chunks carry a well-formed frame leave the reader holding the frame up to the bytes still unread, with those bytes the rest of the frame |
| FramingDelivery.Undelivered | src/main.cpp:332-341 | the ticks `Deliver` leaves once a frame is ready are the last ones of the ticks given |
| FramingDelivery.DeliverTakesAll | src/main.cpp:127-195 | on ticks on time whose chunks carry a well-formed frame, the ticks `Deliver` leaves once the frame is ready bring no byte, and no byte is left unread while the reader is still in the start state |
| FramingEndToEnd.IdleTicksFinish | src/main.cpp:127-195 | once the whole frame has arrived, as many more ticks on time as there are states ahead of the reader bring it to processing with nothing left unread |
| FramingEndToEnd.FrameReachesProcessing | src/main.cpp:127-195 | a well-formed frame split into chunks in any way, fed from the start state on ticks on time, followed by two ticks without new bytes, leaves the reader ready to process with exactly the frame in the buffer before the cursor |
| FramingEndToEnd.ReadyFrameProcessed | src/main.cpp:197-315 | the tick after a frame is ready, on time, processes exactly that frame: registers unchanged when the checksum fails, each found metric published when it matches, and the reader starts over |
| FramingEndToEnd.Run | src/main.cpp:332-341 | `loop()` over a sequence of ticks, each running `run_current_state` on the bytes available; every run keeps the invariant |
| FramingEndToEnd.RunAfterDeliver | src/main.cpp:332-341 | `loop()` runs the same ticks as `Deliver` until a frame is ready, and goes on from where `Deliver` stopped with the ticks it left |
| FramingEndToEnd.UndeliveredAppend | src/main.cpp:332-341 | ticks appended after those where a frame became ready are left to later too |
| FramingEndToEnd.WaitingStays | src/main.cpp:302-315 | ticks that bring no byte leave a reader waiting at cursor 0 waiting there, with nothing unread and its registers, whatever the clock does |
| FramingEndToEnd.ReadyRun | src/main.cpp:197-341 | from a reader holding a ready frame, `loop()` on ticks without new bytes, the first of them on time, processes exactly that frame and then waits for the next one with nothing unread |
| FramingEndToEnd.DeliverStopsReady | src/main.cpp:127-341 | on a frame's chunks and three idle ticks, `Deliver` stops at a reader holding exactly the frame, leaving idle ticks, the first of them on time |
| FramingEndToEnd.FrameIsProcessed | src/main.cpp:127-341 | end to end: `loop()` on a well-formed frame in any split, on ticks on time, followed by three ticks without new bytes, ends waiting for the next frame at cursor 0 with nothing unread, the registers unchanged when the checksum fails and each found metric published when it matches |
| Reader.SmlReader.constructor | src/main.cpp:317-330 | `setup` leaves the reader in the initial snapshot |
| Reader.SmlReader.SetState | src/main.cpp:92-114 | `set_state` changes the globals as `Enter` says; it runs mid-routine and promises nothing about the invariant |
| Reader.SmlReader.Reset | src/main.cpp:117-124 | `reset` changes the globals as `Framing.Reset` says and establishes the invariant |
| Reader.SmlReader.WaitForStartSequence | src/main.cpp:127-143 | the in-place routine reaches exactly the snapshot and unread input of `WaitForStart` |
| Reader.SmlReader.EndSequenceFound | src/main.cpp:159-173 | the backwards comparison reports exactly whether the buffer ends with the end marker at the cursor |
| Reader.SmlReader.ReadMessage | src/main.cpp:146-175 | the in-place routine reaches exactly the snapshot and unread input of `Framing.ReadMessage` |
| Reader.SmlReader.ReadChecksum | src/main.cpp:178-195 | the in-place routine reaches exactly the snapshot and unread input of `Framing.ReadChecksum` |
| Reader.SmlReader.ProcessMessage | src/main.cpp:197-300 | the in-place routine reaches exactly the snapshot of `Framing.ProcessMessage` and reports the unslotted metrics |
| Reader.SmlReader.RunCurrentState | src/main.cpp:302-315 | one tick in place reaches exactly the snapshot, unread input and reports of `Tick` |
| Reader.ChecksumMatches | src/main.cpp:199-207 | the checksum test over the array is exactly the acceptance rule |
| Reader.DecodeFrame | src/main.cpp:216-259 | the parsing loop returns exactly `DecodeAll` of the frame |

## Left out

- Serial I/O: `data_available()`/`data_read()` become an input byte sequence. Each state routine returns the bytes it left unread.
- Logging and the debug buffer dump (`dump_buffer`, `Serial.print`) are not modelled.
- The OneWire hub, the BAE910 emulation and its polling in `loop()` are not modelled. The sink is four `int32_t` registers.
- The chip-id union and the device address are not modelled.
- `millis()` is a parameter `now` of each tick. A routine reads one clock value per tick.
- Tlv.FindPattern: searches the frame for the metric's configured eight-byte OBIS pattern. The code (src/main.cpp:219) passes `&METRICS[i].pattern.front()` as the eight-byte needle, but the pattern is a `std::list<byte>` (src/main.cpp:29), whose elements are separate list nodes: only the first needle byte is the pattern's, and the other seven are whatever memory follows it. That memory layout is not modelled.
- Tlv.DecodeMetric: inherits the search above; the same holds for `Tlv.DecodeMetricAt`, `Framing.DecodeAll` and `Reader.DecodeFrame`.
- FramingEndToEnd.FrameReachesProcessing: covers frames whose ticks all come within `READ_TIMEOUT` of the start and whose end marker appears nowhere inside the body. In the code a late tick starts over, and an early end marker cuts the frame short at that marker. Those cases are stated by `FramingProperties.TimeoutStartsOver` and `FramingProperties.ReadMessageFirstEnd` instead.
- FramingEndToEnd.FrameIsProcessed: has the same restriction to ticks on time and frames without an early end marker, and the ticks after the frame's chunks bring no byte of a next frame.
- The `state != NULL` test of `run_current_state` is not modelled: after `setup` a state is always set.
- TLV tags with the multi-byte length bit (0x80) are not modelled. Their low nibble is used as the length, as the code does.
- Crc16.X25Of: the FastCRC library's table-driven `x25` is modelled by its bitwise definition, which it is specified to equal.
- Publisher.MilliUnits: computes `value * 10^scaler * 1000` exactly on integers, where the code uses floating point. Truncation toward zero is kept. Rounding error of `pow` and doubles beyond 2^53 is not modelled.
- Publisher.RegisterValue: a negative or out-of-range double cast to `uint32_t` is undefined in C++. The model takes the value mod 2^32 and reads it as `int32_t`.
- Publisher.PublishAll: an absent metric leaves its register unchanged. The code publishes the uninitialised `values[i]` entry.
- Tlv.DecodeFields: every read is bounds-checked against the frame length, and the metric is absent when a read would pass it. The code reads past `position` unchecked.
- Tlv.DecodeValue: a value tag of length 0 makes the metric absent. In the code `--nlen` wraps and the loop reads 255 bytes.
