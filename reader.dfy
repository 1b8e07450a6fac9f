/**
 * The SML reader as the firmware runs it: global state updated in place by the
 * state routines, one of which runs per tick. `setup`, `reset`, the four state
 * routines and `run_current_state` are proved to take the reader from a
 * snapshot to exactly the snapshot the matching function of module Framing
 * computes, and to keep the reader's invariant. `set_state` runs in the middle
 * of a routine, where the invariant need not hold; it is proved only to match
 * `Enter`.
 */
module Reader {
  import opened Wrappers
  import opened Bytes
  import opened Crc16
  import opened Tlv
  import opened Publisher
  import opened Framing
  import opened FramingProperties

  class SmlReader {
    /** The frame buffer. */
    const buffer: array<byte>
    /** The four 32-bit user registers of the sink (userm, usern, usero, userp). */
    const slots: array<i32>
    /** The state routine that runs on the next tick. */
    var state: State
    /** The cursor into `buffer`. */
    var position: int
    /** Trailer bytes still to be read. */
    var bytesUntilChecksum: nat
    /** The `millis()` reading at the last reset. */
    var lastStateReset: u32

    /** The reader's state as a value. */
    ghost function Snapshot(): Machine
      reads this, buffer, slots
    {
      Machine(state, buffer[..], position, bytesUntilChecksum, lastStateReset, slots[..])
    }

    ghost predicate Valid()
      reads this, buffer, slots
    {
      buffer.Length == BUFFER_SIZE && slots.Length == SLOT_COUNT && Invariant(Snapshot())
    }

    /** `setup`: zeroed globals and the given registers, then the start state entered at time `now`. */
    constructor (now: u32, registers: seq<i32>)
      requires |registers| == SLOT_COUNT
      ensures Valid() && Snapshot() == Initial(now, registers)
      ensures fresh(buffer) && fresh(slots)
    {
      buffer := new byte[BUFFER_SIZE](_ => 0);
      slots := new i32[SLOT_COUNT](i requires 0 <= i < SLOT_COUNT => registers[i]);
      state := WaitingForStart;
      position := 0;
      bytesUntilChecksum := 0;
      lastStateReset := 0;
      new;
      assert buffer[..] == seq(BUFFER_SIZE, _ => 0);
      assert slots[..] == registers;
      SetState(WaitingForStart, now);
      InitialInvariant(now, registers);
    }

    /** `set_state`: switch state and run the entry action of the new state. */
    method SetState(s: State, now: u32)
      modifies this
      ensures Snapshot() == Enter(old(Snapshot()), s, now)
    {
      if s == WaitingForStart {
        lastStateReset := now;
        position := 0;
      } else if s == ReadingChecksum {
        bytesUntilChecksum := TRAILER_LENGTH;
      }
      state := s;
    }

    /** `reset`: start over and wait for the start marker. */
    method Reset(now: u32)
      requires buffer.Length == BUFFER_SIZE && slots.Length == SLOT_COUNT
      modifies this
      ensures Valid() && Snapshot() == Framing.Reset(old(Snapshot()), now)
    {
      SetState(WaitingForStart, now);
      ResetKeepsInvariant(old(Snapshot()), now);
    }

    /** `wait_for_start_sequence`: store and match bytes until the whole start marker has been seen. */
    method WaitForStartSequence(input: seq<byte>, now: u32) returns (rest: seq<byte>)
      requires Valid() && state == WaitingForStart
      modifies this, buffer
      ensures Valid()
      ensures var r := WaitForStart(old(Snapshot()), input, now); Snapshot() == r.machine && rest == r.rest
    {
      ghost var m0 := Snapshot();
      WaitForStartOutcome(m0, input, now);
      rest := input;
      while rest != []
        invariant state == WaitingForStart && 0 <= position < |START_SEQUENCE|
        invariant WaitForStart(m0, input, now) == WaitForStart(Snapshot(), rest, now)
        decreases |rest|
      {
        ghost var before := Snapshot();
        buffer[position] := rest[0];
        position := if buffer[position] == START_SEQUENCE[position] then position + 1 else 0;
        assert Snapshot() == MatchStartByte(before, rest[0]);
        rest := rest[1..];
        if position == |START_SEQUENCE| {
          SetState(ReadingMessage, now);
          return;
        }
      }
    }

    /**
     * The end-marker check of `read_message`: compare the last five buffered
     * bytes with the end marker, from the last byte backwards, stopping at the
     * first difference.
     */
    method EndSequenceFound() returns (found: bool)
      requires |END_SEQUENCE| <= position <= buffer.Length
      ensures found == EndsWithEnd(buffer[..], position)
    {
      found := false;
      var last := |END_SEQUENCE| - 1;
      var i := 0;
      while i <= last
        invariant 0 <= i <= |END_SEQUENCE|
        invariant found == (i == |END_SEQUENCE|)
        invariant forall j :: position - i <= j < position ==> buffer[j] == END_SEQUENCE[j - (position - |END_SEQUENCE|)]
      {
        if END_SEQUENCE[last - i] != buffer[position - (i + 1)] {
          assert buffer[..][position - |END_SEQUENCE|..position][last - i] != END_SEQUENCE[last - i];
          return;
        }
        if i == last {
          found := true;
        }
        i := i + 1;
      }
      assert buffer[..][position - |END_SEQUENCE|..position] == END_SEQUENCE;
    }

    /**
     * `read_message`: append body bytes until the buffer ends with the end
     * marker; when a byte is waiting but only the trailer's room is left, start
     * over without reading it.
     */
    method ReadMessage(input: seq<byte>, now: u32) returns (rest: seq<byte>)
      requires Valid() && state == ReadingMessage
      modifies this, buffer
      ensures Valid()
      ensures var r := Framing.ReadMessage(old(Snapshot()), input, now); Snapshot() == r.machine && rest == r.rest
    {
      ghost var m0 := Snapshot();
      ReadMessageKeepsInvariant(m0, input, now);
      rest := input;
      while rest != []
        invariant state == ReadingMessage && 0 <= position <= BUFFER_SIZE - TRAILER_LENGTH
        invariant Framing.ReadMessage(m0, input, now) == Framing.ReadMessage(Snapshot(), rest, now)
        decreases |rest|
      {
        ReadMessageByte(Snapshot(), rest, now);
        if position + TRAILER_LENGTH == BUFFER_SIZE {
          Reset(now);
          return;
        }
        ghost var before := Snapshot();
        buffer[position] := rest[0];
        position := position + 1;
        assert Snapshot() == before.(buffer := before.buffer[before.position := rest[0]], position := before.position + 1);
        rest := rest[1..];
        var found := false;
        if position >= |END_SEQUENCE| {
          found := EndSequenceFound();
        }
        if found {
          SetState(ReadingChecksum, now);
          return;
        }
      }
    }

    /** `read_checksum`: append trailer bytes while the countdown is positive; once it is 0, go on to processing. */
    method ReadChecksum(input: seq<byte>, now: u32) returns (rest: seq<byte>)
      requires Valid() && state == ReadingChecksum
      modifies this, buffer
      ensures Valid()
      ensures var r := Framing.ReadChecksum(old(Snapshot()), input, now); Snapshot() == r.machine && rest == r.rest
    {
      ghost var m0 := Snapshot();
      ReadChecksumKeepsInvariant(m0, input, now);
      rest := input;
      while bytesUntilChecksum > 0 && rest != []
        invariant 0 <= position && position + bytesUntilChecksum <= BUFFER_SIZE
        invariant Framing.ReadChecksum(m0, input, now) == Framing.ReadChecksum(Snapshot(), rest, now)
        decreases |rest|
      {
        ghost var before := Snapshot();
        ReadChecksumByte(before, rest, now);
        buffer[position] := rest[0];
        position := position + 1;
        bytesUntilChecksum := bytesUntilChecksum - 1;
        assert Snapshot() == before.(buffer := before.buffer[before.position := rest[0]], position := before.position + 1,
                                     bytesUntilChecksum := before.bytesUntilChecksum - 1);
        rest := rest[1..];
      }
      ReadChecksumStops(Snapshot(), rest, now);
      if bytesUntilChecksum == 0 {
        SetState(ProcessingMessage, now);
      }
    }

    /**
     * `process_message`: drop a frame whose CRC-16/X-25 does not match its
     * little-endian trailer; otherwise decode every metric and publish it.
     * Either way start over. Returns the metrics reported as having no register.
     */
    method ProcessMessage(now: u32) returns (unslotted: seq<nat>)
      requires Valid() && state == ProcessingMessage
      modifies this, slots
      ensures Valid()
      ensures var r := Framing.ProcessMessage(old(Snapshot()), [], now);
        Snapshot() == r.machine && unslotted == r.unslotted
    {
      ghost var m0 := Snapshot();
      ProcessMessageOutcome(m0, [], now);
      var accepted := ChecksumMatches(buffer, position);
      if !accepted {
        Reset(now);
        return [];
      }
      var values := DecodeFrame(buffer, position);
      unslotted := Publish(slots, values);
      Reset(now);
    }

    /** `run_current_state`: start over if the frame timed out, then run the current state routine once. */
    method RunCurrentState(input: seq<byte>, now: u32) returns (rest: seq<byte>, unslotted: seq<nat>)
      requires Valid()
      modifies this, buffer, slots
      ensures Valid()
      ensures var r := Tick(old(Snapshot()), input, now);
        Snapshot() == r.machine && rest == r.rest && unslotted == r.unslotted
    {
      ghost var m0 := Snapshot();
      if ElapsedU32(now, lastStateReset) > READ_TIMEOUT * 1000 {
        Reset(now);
      }
      assert Snapshot() == if TimedOut(m0, now) then Framing.Reset(m0, now) else m0;
      ghost var m1 := Snapshot();
      unslotted := [];
      match state {
        case WaitingForStart =>
          WaitForStartOutcome(m1, input, now);
          rest := WaitForStartSequence(input, now);
        case ReadingMessage =>
          ReadMessageOutcome(m1, input, now);
          rest := ReadMessage(input, now);
        case ReadingChecksum =>
          ReadChecksumOutcome(m1, input, now);
          rest := ReadChecksum(input, now);
        case ProcessingMessage =>
          unslotted := ProcessMessage(now);
          rest := input;
      }
    }
  }

  /**
   * The checksum test of `process_message`: the CRC-16/X-25 of all but the last
   * two of the first `length` bytes against those two bytes, high byte last.
   */
  method ChecksumMatches(buffer: array<byte>, length: nat) returns (accepted: bool)
    requires 2 <= length <= buffer.Length
    ensures accepted == ChecksumAccepted(buffer[..length])
  {
    ghost var frame := buffer[..length];
    var calculated := X25Of(buffer, length - 2);
    var given := (Widen(buffer[length - 1]) << 8) | Widen(buffer[length - 2]);
    assert frame[..|frame| - 2] == buffer[..length - 2];
    assert frame[|frame| - 1] == buffer[length - 1] && frame[|frame| - 2] == buffer[length - 2];
    AcceptedByParts(frame, calculated, given);
    accepted := calculated == given;
  }

  /** The parsing loop of `process_message`: every configured metric decoded from the first `length` bytes, in table order. */
  method DecodeFrame(buffer: array<byte>, length: nat) returns (values: seq<Option<MetricValue>>)
    requires length <= buffer.Length
    ensures values == DecodeAll(buffer[..length])
  {
    values := [];
    var i := 0;
    while i < |METRICS|
      invariant 0 <= i <= |METRICS| && |values| == i
      invariant forall k :: 0 <= k < i ==> values[k] == DecodeMetric(buffer[..length], METRICS[k].pattern)
    {
      var v := DecodeMetricAt(buffer, length, METRICS[i].pattern);
      values := values + [v];
      i := i + 1;
    }
  }
}
