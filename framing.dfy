/**
 * The framing state machine of the SML reader, as pure functions on a snapshot
 * of its global state. Each handler function consumes input the way the
 * reader's state routine does (one byte per `data_read()`, stopping at a
 * transition or when no byte is available) and returns the new snapshot and the
 * input it left unread. The class in module Reader runs the same steps in place
 * on an array and is proved to agree with these functions.
 */
module Framing {
  import opened Wrappers
  import opened Bytes
  import opened Crc16
  import opened Tlv
  import opened Publisher

  /** Escape sequence and version 1 marker that open an SML transport frame. */
  const START_SEQUENCE: seq<byte> := [0x1B, 0x1B, 0x1B, 0x1B, 0x01, 0x01, 0x01, 0x01]
  /** Escape sequence and end marker that close the frame body. */
  const END_SEQUENCE: seq<byte> := [0x1B, 0x1B, 0x1B, 0x1B, 0x1A]
  /** Capacity of the frame buffer. */
  const BUFFER_SIZE: nat := 3840
  /** Bytes after the end marker: the fill-byte count and the two checksum bytes. */
  const TRAILER_LENGTH: nat := 3
  /** Seconds after the last reset at which a frame in progress is abandoned. */
  const READ_TIMEOUT: nat := 30

  /** Which state routine the `state` pointer designates. */
  datatype State = WaitingForStart | ReadingMessage | ReadingChecksum | ProcessingMessage

  /**
   * The reader's global state: the state pointer, the frame buffer and its
   * cursor, the trailer countdown, the `millis()` time of the last reset, and the
   * four sink registers.
   */
  datatype Machine = Machine(
    state: State,
    buffer: seq<byte>,
    position: int,
    bytesUntilChecksum: nat,
    lastStateReset: u32,
    slots: seq<i32>)

  /** The outcome of running a state routine: the new state, the unread input, and the metrics reported as having no register. */
  datatype Step = Step(machine: Machine, rest: seq<byte>, unslotted: seq<nat>)

  /** The five bytes before `position` are the end marker. */
  predicate EndsWithEnd(buffer: seq<byte>, position: int)
  {
    |END_SEQUENCE| <= position <= |buffer| && buffer[position - |END_SEQUENCE|..position] == END_SEQUENCE
  }

  /** `rest` is what is left of `input` after bytes were taken from its front. */
  predicate IsRest(input: seq<byte>, rest: seq<byte>)
  {
    |rest| <= |input| && rest == input[|input| - |rest|..]
  }

  /**
   * What holds of the reader's state between two ticks: in the start state the
   * cursor counts the matched marker bytes, which are in the buffer; while the
   * body is read the buffer holds the start marker, no end marker yet, and room
   * for the trailer; while the trailer is read, the body ends with the end marker
   * and the remaining trailer bytes fit; a frame to process holds both markers
   * and its trailer.
   */
  predicate Invariant(m: Machine)
  {
    |m.buffer| == BUFFER_SIZE && |m.slots| == SLOT_COUNT &&
    match m.state
    case WaitingForStart =>
      0 <= m.position < |START_SEQUENCE| && m.buffer[..m.position] == START_SEQUENCE[..m.position]
    case ReadingMessage =>
      |START_SEQUENCE| <= m.position <= BUFFER_SIZE - TRAILER_LENGTH
      && m.buffer[..|START_SEQUENCE|] == START_SEQUENCE && !EndsWithEnd(m.buffer, m.position)
    case ReadingChecksum =>
      1 <= m.bytesUntilChecksum <= TRAILER_LENGTH
      && m.position + m.bytesUntilChecksum <= BUFFER_SIZE
      && var bodyEnd := m.position + m.bytesUntilChecksum - TRAILER_LENGTH;
      |START_SEQUENCE| + |END_SEQUENCE| <= bodyEnd
      && m.buffer[..|START_SEQUENCE|] == START_SEQUENCE && EndsWithEnd(m.buffer, bodyEnd)
    case ProcessingMessage =>
      |START_SEQUENCE| + |END_SEQUENCE| + TRAILER_LENGTH <= m.position <= BUFFER_SIZE
      && m.buffer[..|START_SEQUENCE|] == START_SEQUENCE && EndsWithEnd(m.buffer, m.position - TRAILER_LENGTH)
  }

  /**
   * `set_state`: switch to state `s` and run its entry action. Entering the start
   * state empties the buffer and restarts the timeout clock; entering the
   * trailer state arms the countdown of three bytes; the other two entries
   * change nothing else.
   */
  function Enter(m: Machine, s: State, now: u32): (r: Machine)
    ensures r.state == s && r.buffer == m.buffer && r.slots == m.slots
    ensures r.position == if s == WaitingForStart then 0 else m.position
    ensures r.lastStateReset == if s == WaitingForStart then now else m.lastStateReset
    ensures r.bytesUntilChecksum == if s == ReadingChecksum then TRAILER_LENGTH else m.bytesUntilChecksum
  {
    match s
    case WaitingForStart => m.(state := s, lastStateReset := now, position := 0)
    case ReadingMessage => m.(state := s)
    case ReadingChecksum => m.(state := s, bytesUntilChecksum := TRAILER_LENGTH)
    case ProcessingMessage => m.(state := s)
  }

  /** `reset`: start over and wait for the start marker. */
  function Reset(m: Machine, now: u32): Machine
  {
    Enter(m, WaitingForStart, now)
  }

  /** The state after `setup`: zeroed globals, then the start state entered at time `now`. */
  function Initial(now: u32, slots: seq<i32>): Machine
  {
    Reset(Machine(WaitingForStart, seq(BUFFER_SIZE, _ => 0), 0, 0, 0, slots), now)
  }

  /**
   * One byte in the start state: it is stored at the cursor; the cursor moves on
   * when the byte is the next marker byte and drops back to 0 otherwise.
   */
  function MatchStartByte(m: Machine, b: byte): Machine
    requires |m.buffer| == BUFFER_SIZE && 0 <= m.position < |START_SEQUENCE|
  {
    m.(buffer := m.buffer[m.position := b],
       position := if b == START_SEQUENCE[m.position] then m.position + 1 else 0)
  }

  /** `wait_for_start_sequence`: match bytes until the whole start marker has been seen. */
  function WaitForStart(m: Machine, input: seq<byte>, now: u32): (r: Step)
    requires |m.buffer| == BUFFER_SIZE && 0 <= m.position < |START_SEQUENCE|
    ensures IsRest(input, r.rest)
    decreases |input|
  {
    if input == [] then Step(m, [], [])
    else
      var next := MatchStartByte(m, input[0]);
      if next.position == |START_SEQUENCE| then Step(Enter(next, ReadingMessage, now), input[1..], [])
      else WaitForStart(next, input[1..], now)
  }

  /**
   * `read_message`: append body bytes until the buffer ends with the end marker;
   * when a byte is available but only the trailer's room is left, start over
   * without consuming it.
   */
  function ReadMessage(m: Machine, input: seq<byte>, now: u32): (r: Step)
    requires |m.buffer| == BUFFER_SIZE && 0 <= m.position <= BUFFER_SIZE - TRAILER_LENGTH
    ensures IsRest(input, r.rest)
    decreases |input|
  {
    if input == [] then Step(m, [], [])
    else if m.position + TRAILER_LENGTH == BUFFER_SIZE then Step(Reset(m, now), input, [])
    else
      var next := m.(buffer := m.buffer[m.position := input[0]], position := m.position + 1);
      if EndsWithEnd(next.buffer, next.position) then Step(Enter(next, ReadingChecksum, now), input[1..], [])
      else ReadMessage(next, input[1..], now)
  }

  /**
   * `read_checksum`: append trailer bytes while the countdown is positive and
   * input is available; once it is 0, go on to processing.
   */
  function ReadChecksum(m: Machine, input: seq<byte>, now: u32): (r: Step)
    requires |m.buffer| == BUFFER_SIZE && 0 <= m.position && m.position + m.bytesUntilChecksum <= BUFFER_SIZE
    ensures IsRest(input, r.rest)
    decreases |input|
  {
    if m.bytesUntilChecksum > 0 && input != [] then
      ReadChecksum(m.(buffer := m.buffer[m.position := input[0]], position := m.position + 1,
                      bytesUntilChecksum := m.bytesUntilChecksum - 1), input[1..], now)
    else if m.bytesUntilChecksum == 0 then Step(Enter(m, ProcessingMessage, now), input, [])
    else Step(m, input, [])
  }

  /**
   * Every configured metric decoded from `frame`, in table order: a metric whose
   * pattern does not occur is absent, and a metric that is present was decoded
   * right after the first occurrence of its pattern.
   */
  function DecodeAll(frame: seq<byte>): (r: seq<Option<MetricValue>>)
    ensures |r| == |METRICS|
    ensures forall i :: 0 <= i < |r| ==> (forall k: nat :: !HoldsAt(frame, k, METRICS[i].pattern)) ==> r[i].None?
    ensures forall i: nat, k: nat :: i < |r| && FirstHeldAt(frame, METRICS[i].pattern, k) ==>
      r[i] == DecodeFields(frame, k + |METRICS[i].pattern|)
    ensures forall i :: 0 <= i < |r| && r[i].Some? ==>
      exists k: nat :: FirstHeldAt(frame, METRICS[i].pattern, k) && r[i] == DecodeFields(frame, k + |METRICS[i].pattern|)
  {
    seq(|METRICS|, i requires 0 <= i < |METRICS| => DecodeMetric(frame, METRICS[i].pattern))
  }

  /**
   * `process_message`: a frame whose CRC-16/X-25 does not match its
   * little-endian trailer is dropped; otherwise every metric is decoded and
   * published. Either way the reader starts over. No input is consumed.
   */
  function ProcessMessage(m: Machine, input: seq<byte>, now: u32): Step
    requires |m.buffer| == BUFFER_SIZE && 2 <= m.position <= BUFFER_SIZE && |m.slots| == SLOT_COUNT
  {
    var frame := m.buffer[..m.position];
    if !ChecksumAccepted(frame) then Step(Reset(m, now), input, [])
    else
      var values := DecodeAll(frame);
      Step(Reset(m.(slots := PublishAll(m.slots, values)), now), input, Unslotted(|values|))
  }

  /** More than `READ_TIMEOUT` seconds of `millis()` (which wraps at 2^32) have passed since the last reset. */
  predicate TimedOut(m: Machine, now: u32)
  {
    ElapsedU32(now, m.lastStateReset) > READ_TIMEOUT * 1000
  }

  /** The routine the state pointer designates, run once. */
  function RunState(m: Machine, input: seq<byte>, now: u32): Step
    requires Invariant(m)
  {
    match m.state
    case WaitingForStart => WaitForStart(m, input, now)
    case ReadingMessage => ReadMessage(m, input, now)
    case ReadingChecksum => ReadChecksum(m, input, now)
    case ProcessingMessage => ProcessMessage(m, input, now)
  }

  /** `run_current_state`: start over if the frame timed out, then run the current state routine once. */
  function Tick(m: Machine, input: seq<byte>, now: u32): Step
    requires Invariant(m)
  {
    RunState(if TimedOut(m, now) then Reset(m, now) else m, input, now)
  }
}
