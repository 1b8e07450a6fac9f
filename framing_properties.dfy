/**
 * What the framing state machine guarantees: the invariant every tick keeps,
 * how each state routine consumes its input, when each transition happens,
 * the timeout, and the frame acceptance rule.
 */
module FramingProperties {
  import opened Wrappers
  import opened Bytes
  import opened Crc16
  import opened Tlv
  import opened Publisher
  import opened Framing

  // ---------------------------------------------------------------------------
  // Start marker

  /**
   * The start state either consumes all input and stays, or stops right after
   * the byte that completes the marker, with exactly the marker in the buffer.
   * Nothing but the buffer, the cursor and the state changes.
   */
  lemma {:induction false} WaitForStartOutcome(m: Machine, input: seq<byte>, now: u32)
    requires Invariant(m) && m.state == WaitingForStart
    ensures var r := WaitForStart(m, input, now);
      Invariant(r.machine) && IsRest(input, r.rest) && r.unslotted == []
      && (r.machine.state == WaitingForStart || r.machine.state == ReadingMessage)
      && (r.machine.state == WaitingForStart ==> r.rest == [])
      && (r.machine.state == ReadingMessage ==> r.machine.position == |START_SEQUENCE| && |r.rest| < |input|)
      && r.machine.lastStateReset == m.lastStateReset && r.machine.slots == m.slots
      && r.machine.bytesUntilChecksum == m.bytesUntilChecksum
    decreases |input|
  {
    if input != [] {
      var next := MatchStartByte(m, input[0]);
      assert next.buffer[..next.position] == START_SEQUENCE[..next.position] by {
        if next.position > 0 {
          assert next.buffer[..next.position] == m.buffer[..m.position] + [input[0]];
        }
      }
      if next.position == |START_SEQUENCE| {
        EightBytesAreNoEnd(next.buffer);
      } else {
        WaitForStartOutcome(next, input[1..], now);
      }
    }
  }

  /** A buffer that starts with the start marker does not end with the end marker at the marker's end. */
  lemma EightBytesAreNoEnd(buffer: seq<byte>)
    requires |buffer| >= |START_SEQUENCE| && buffer[..|START_SEQUENCE|] == START_SEQUENCE
    ensures !EndsWithEnd(buffer, |START_SEQUENCE|)
  {
    assert buffer[7] == 0x01;
  }

  /** Consuming one byte that does not complete the marker hands the rest of the input to the same routine. */
  lemma WaitForStartByte(m: Machine, input: seq<byte>, now: u32)
    requires |m.buffer| == BUFFER_SIZE && 0 <= m.position < |START_SEQUENCE| && input != []
    requires MatchStartByte(m, input[0]).position < |START_SEQUENCE|
    ensures WaitForStart(m, input, now) == WaitForStart(MatchStartByte(m, input[0]), input[1..], now)
  {
  }

  /** `all` ends with the first `p` bytes of the start marker. */
  predicate EndsWithMarkerPrefix(all: seq<byte>, p: int)
  {
    0 <= p <= |START_SEQUENCE| && p <= |all| && all[|all| - p..] == START_SEQUENCE[..p]
  }

  /**
   * The cursor never claims more than was seen: if the bytes seen so far end
   * with the first `position` marker bytes, then after the routine the bytes seen
   * (those and the consumed input) end with the first `position` marker bytes
   * again; in particular the marker was really received when the routine moves on.
   */
  lemma {:induction false} StartMatchSound(m: Machine, input: seq<byte>, now: u32, seen: seq<byte>)
    requires |m.buffer| == BUFFER_SIZE && 0 <= m.position < |START_SEQUENCE|
    requires EndsWithMarkerPrefix(seen, m.position)
    ensures var r := WaitForStart(m, input, now);
      EndsWithMarkerPrefix(seen + input[..|input| - |r.rest|], r.machine.position)
    decreases |input|
  {
    if input != [] {
      var b := input[0];
      var next := MatchStartByte(m, b);
      MatchStartByteSound(m, b, seen);
      if next.position == |START_SEQUENCE| {
        var r := WaitForStart(m, input, now);
        assert r.rest == input[1..] && r.machine.position == next.position;
        assert seen + input[..|input| - |r.rest|] == seen + [b];
      } else {
        StartMatchSound(next, input[1..], now, seen + [b]);
        StartMatchSoundStep(m, input, now, seen);
      }
    } else {
      assert seen + input[..0] == seen;
    }
  }

  /** The inductive step of `StartMatchSound`: a byte that does not complete the marker, then the rest of the input. */
  lemma StartMatchSoundStep(m: Machine, input: seq<byte>, now: u32, seen: seq<byte>)
    requires |m.buffer| == BUFFER_SIZE && 0 <= m.position < |START_SEQUENCE| && input != []
    requires MatchStartByte(m, input[0]).position < |START_SEQUENCE|
    requires var r := WaitForStart(MatchStartByte(m, input[0]), input[1..], now);
      EndsWithMarkerPrefix((seen + [input[0]]) + input[1..][..|input[1..]| - |r.rest|], r.machine.position)
    ensures var r := WaitForStart(m, input, now);
      EndsWithMarkerPrefix(seen + input[..|input| - |r.rest|], r.machine.position)
  {
    var r := WaitForStart(m, input, now);
    WaitForStartByte(m, input, now);
    TakeAfterFirst(seen, input, |input| - |r.rest|);
  }

  /** Matching one byte keeps the cursor honest about the bytes seen. */
  lemma MatchStartByteSound(m: Machine, b: byte, seen: seq<byte>)
    requires |m.buffer| == BUFFER_SIZE && 0 <= m.position < |START_SEQUENCE|
    requires EndsWithMarkerPrefix(seen, m.position)
    ensures EndsWithMarkerPrefix(seen + [b], MatchStartByte(m, b).position)
  {
    var p := MatchStartByte(m, b).position;
    var seen' := seen + [b];
    if p > 0 {
      assert seen'[|seen'| - p..] == seen[|seen| - m.position..] + [b];
      assert START_SEQUENCE[..p] == START_SEQUENCE[..m.position] + [b];
    }
  }

  /**
   * One byte in the start state is stored at the cursor, which moves on exactly
   * when the byte is the next marker byte and drops back to 0 otherwise.
   */
  lemma MatchStartByteMoves(m: Machine, b: byte)
    requires |m.buffer| == BUFFER_SIZE && 0 <= m.position < |START_SEQUENCE|
    ensures var r := MatchStartByte(m, b);
      r.buffer == m.buffer[m.position := b] && r.state == m.state
      && (b == START_SEQUENCE[m.position] ==> r.position == m.position + 1)
      && (b != START_SEQUENCE[m.position] ==> r.position == 0)
  {
  }

  /** Seeing the first `k` bytes of `input` is seeing its first byte, then `k - 1` bytes of the remainder. */
  lemma TakeAfterFirst(seen: seq<byte>, input: seq<byte>, k: nat)
    requires 1 <= k <= |input|
    ensures seen + input[..k] == (seen + [input[0]]) + input[1..][..k - 1]
  {
    assert input[..k] == [input[0]] + input[1..][..k - 1];
  }

  /**
   * When the rest of the marker arrives in one piece, the start state moves on
   * right after it: from a cursor at `p`, the bytes `START_SEQUENCE[p..]` complete
   * the match.
   */
  lemma {:induction false} StartMatchCompletes(m: Machine, input: seq<byte>, now: u32)
    requires |m.buffer| == BUFFER_SIZE && 0 <= m.position < |START_SEQUENCE|
    requires START_SEQUENCE[m.position..] <= input
    ensures var r := WaitForStart(m, input, now);
      r.machine.state == ReadingMessage && r.rest == input[|START_SEQUENCE| - m.position..]
    decreases |START_SEQUENCE| - m.position
  {
    var b := input[0];
    PrefixTail(START_SEQUENCE[m.position..], input);
    var next := MatchStartByte(m, b);
    assert next.position == m.position + 1;
    if next.position < |START_SEQUENCE| {
      WaitForStartByte(m, input, now);
      assert START_SEQUENCE[m.position..][1..] == START_SEQUENCE[next.position..];
      StartMatchCompletes(next, input[1..], now);
      assert input[1..][|START_SEQUENCE| - next.position..] == input[|START_SEQUENCE| - m.position..];
    }
  }

  /**
   * Part of the marker arriving in one piece without completing it advances the
   * cursor by its length and consumes it all: a marker split across ticks is
   * matched piece by piece.
   */
  lemma {:induction false} StartMatchAdvances(m: Machine, input: seq<byte>, now: u32)
    requires |m.buffer| == BUFFER_SIZE && 0 <= m.position && m.position + |input| < |START_SEQUENCE|
    requires input == START_SEQUENCE[m.position..m.position + |input|]
    ensures var r := WaitForStart(m, input, now);
      r.machine.state == m.state && r.machine.position == m.position + |input| && r.rest == []
    decreases |input|
  {
    if input != [] {
      MarkerPieceTail(m.position, input);
      var next := MatchStartByte(m, input[0]);
      StartMatchAdvances(next, input[1..], now);
      WaitForStartByte(m, input, now);
    }
  }

  /** A non-empty piece of the marker from `p` on starts with marker byte `p`, and its tail is the piece from `p + 1` on. */
  lemma MarkerPieceTail(p: nat, input: seq<byte>)
    requires input != [] && p + |input| <= |START_SEQUENCE| && input == START_SEQUENCE[p..p + |input|]
    ensures input[0] == START_SEQUENCE[p] && input[1..] == START_SEQUENCE[p + 1..p + |input|]
  {
    assert input[0] == START_SEQUENCE[p..p + |input|][0];
  }

  /** A non-empty prefix of `input` starts with the first byte of `input`, and its tail is a prefix of the tail. */
  lemma PrefixTail(a: seq<byte>, input: seq<byte>)
    requires a != [] && a <= input
    ensures input[0] == a[0] && a[1..] <= input[1..]
  {
    assert input[0] == input[..|a|][0];
    assert input[1..][..|a| - 1] == input[..|a|][1..];
  }

  /**
   * Reset on mismatch is not a full substring search: an escape byte 0x1B right
   * before the start marker makes the matcher miss that marker.
   */
  lemma ExtraEscapeMissesStart(m: Machine, now: u32)
    requires |m.buffer| == BUFFER_SIZE && m.state == WaitingForStart && m.position == 0
    ensures var r := WaitForStart(m, [0x1B] + START_SEQUENCE, now);
      r.machine.state == WaitingForStart && r.machine.position == 0 && r.rest == []
  {
    var s1 := MatchStartByte(m, 0x1B);
    var s2 := MatchStartByte(s1, 0x1B);
    var s3 := MatchStartByte(s2, 0x1B);
    var s4 := MatchStartByte(s3, 0x1B);
    assert s4.position == 4;
    var s5 := MatchStartByte(s4, 0x1B);
    assert s5.position == 0;
    var s6 := MatchStartByte(s5, 0x01);
    var s7 := MatchStartByte(s6, 0x01);
    var s8 := MatchStartByte(s7, 0x01);
    var s9 := MatchStartByte(s8, 0x01);
    assert s9.position == 0 && s9.state == WaitingForStart;
    StartByteThen(m, 0x1B, [0x1B, 0x1B, 0x1B, 0x1B, 0x01, 0x01, 0x01, 0x01], now);
    StartByteThen(s1, 0x1B, [0x1B, 0x1B, 0x1B, 0x01, 0x01, 0x01, 0x01], now);
    StartByteThen(s2, 0x1B, [0x1B, 0x1B, 0x01, 0x01, 0x01, 0x01], now);
    StartByteThen(s3, 0x1B, [0x1B, 0x01, 0x01, 0x01, 0x01], now);
    StartByteThen(s4, 0x1B, [0x01, 0x01, 0x01, 0x01], now);
    StartByteThen(s5, 0x01, [0x01, 0x01, 0x01], now);
    StartByteThen(s6, 0x01, [0x01, 0x01], now);
    StartByteThen(s7, 0x01, [0x01], now);
    StartByteThen(s8, 0x01, [], now);
  }

  /** `WaitForStartByte` for input written as a first byte and the rest. */
  lemma StartByteThen(m: Machine, b: byte, rest: seq<byte>, now: u32)
    requires |m.buffer| == BUFFER_SIZE && 0 <= m.position < |START_SEQUENCE|
    requires MatchStartByte(m, b).position < |START_SEQUENCE|
    ensures WaitForStart(m, [b] + rest, now) == WaitForStart(MatchStartByte(m, b), rest, now)
  {
    WaitForStartByte(m, [b] + rest, now);
    assert ([b] + rest)[1..] == rest;
  }

  // ---------------------------------------------------------------------------
  // Message body

  /** An end marker found after the start marker lies wholly after it. */
  lemma EndAfterStart(buffer: seq<byte>, p: int)
    requires |buffer| >= |START_SEQUENCE| && buffer[..|START_SEQUENCE|] == START_SEQUENCE
    requires p > |START_SEQUENCE| && EndsWithEnd(buffer, p)
    ensures p >= |START_SEQUENCE| + |END_SEQUENCE|
  {
    EndMarkerFirstByte(buffer, p);
    assert forall i :: |START_SEQUENCE| - 4 <= i < |START_SEQUENCE| ==> buffer[i] == START_SEQUENCE[i] == 0x01;
    if p < |START_SEQUENCE| + |END_SEQUENCE| {
      assert false;
    }
  }

  /** A buffer that ends with the end marker at `p` holds the escape byte five bytes before `p`. */
  lemma EndMarkerFirstByte(buffer: seq<byte>, p: int)
    requires EndsWithEnd(buffer, p)
    ensures buffer[p - |END_SEQUENCE|] == 0x1B
  {
    assert buffer[p - |END_SEQUENCE|] == buffer[p - |END_SEQUENCE|..p][0];
  }

  /**
   * How a run `r` of the body state from `m` on `input` may end: it used up the
   * input and keeps reading; it appended the byte that completed the end marker
   * and armed the three-byte trailer countdown; or it found a byte to read when
   * only the trailer's room was left, and started over without consuming that
   * byte. The buffer never fills past `BUFFER_SIZE - TRAILER_LENGTH` bytes.
   */
  predicate BodyOutcome(m: Machine, input: seq<byte>, now: u32, r: Step)
  {
    var n := |input| - |r.rest|;
    Invariant(r.machine) && r.unslotted == [] && r.machine.slots == m.slots
    && match r.machine.state
       case ReadingMessage =>
         r.rest == [] && r.machine.position == m.position + |input|
         && r.machine.lastStateReset == m.lastStateReset
       case ReadingChecksum =>
         n >= 1 && r.machine.position == m.position + n && EndsWithEnd(r.machine.buffer, r.machine.position)
         && r.machine.bytesUntilChecksum == TRAILER_LENGTH && r.machine.lastStateReset == m.lastStateReset
       case WaitingForStart =>
         r.rest != [] && m.position + n == BUFFER_SIZE - TRAILER_LENGTH
         && r.machine.position == 0 && r.machine.lastStateReset == now
       case ProcessingMessage => false
  }

  /** Every run of the body state ends in one of the ways `BodyOutcome` lists. */
  lemma {:induction false} ReadMessageOutcome(m: Machine, input: seq<byte>, now: u32)
    requires Invariant(m) && m.state == ReadingMessage
    ensures BodyOutcome(m, input, now, ReadMessage(m, input, now))
    decreases |input|
  {
    if input != [] && m.position + TRAILER_LENGTH == BUFFER_SIZE {
      ReadMessageOverflow(m, input, now);
    } else if input != [] {
      var next := m.(buffer := m.buffer[m.position := input[0]], position := m.position + 1);
      if EndsWithEnd(next.buffer, next.position) {
        ReadMessageOutcomeEnd(m, input, now);
      } else {
        BodyByteKeepsInvariant(m, input[0]);
        ReadMessageOutcome(next, input[1..], now);
        ReadMessageOutcomeStep(m, input, now);
      }
    }
  }

  /** A byte that arrives when only the trailer's room is left makes the body state start over without consuming it. */
  lemma ReadMessageOverflow(m: Machine, input: seq<byte>, now: u32)
    requires Invariant(m) && m.state == ReadingMessage && input != [] && m.position + TRAILER_LENGTH == BUFFER_SIZE
    ensures BodyOutcome(m, input, now, ReadMessage(m, input, now))
  {
    ResetKeepsInvariant(m, now);
  }

  /** The byte that completes the end marker ends the body state in the trailer state. */
  lemma ReadMessageOutcomeEnd(m: Machine, input: seq<byte>, now: u32)
    requires Invariant(m) && m.state == ReadingMessage && input != [] && m.position + TRAILER_LENGTH != BUFFER_SIZE
    requires EndsWithEnd(m.buffer[m.position := input[0]], m.position + 1)
    ensures BodyOutcome(m, input, now, ReadMessage(m, input, now))
  {
    var b := m.buffer[m.position := input[0]];
    UpdateKeepsPrefix(m.buffer, m.position, input[0], |START_SEQUENCE|);
    EndAfterStart(b, m.position + 1);
    ReadMessageByte(m, input, now);
    var r := Step(Enter(m.(buffer := b, position := m.position + 1), ReadingChecksum, now), input[1..], []);
    assert ReadMessage(m, input, now) == r;
    assert Invariant(r.machine);
  }

  /** Writing at or after index `k` leaves the first `k` elements alone. */
  lemma UpdateKeepsPrefix(s: seq<byte>, i: nat, v: byte, k: nat)
    requires k <= i < |s|
    ensures s[i := v][..k] == s[..k]
  {
  }

  /** The inductive step of `ReadMessageOutcome`: a byte that completes nothing, then the rest of the input. */
  lemma ReadMessageOutcomeStep(m: Machine, input: seq<byte>, now: u32)
    requires Invariant(m) && m.state == ReadingMessage && input != [] && m.position + TRAILER_LENGTH != BUFFER_SIZE
    requires !EndsWithEnd(m.buffer[m.position := input[0]], m.position + 1)
    requires var next := m.(buffer := m.buffer[m.position := input[0]], position := m.position + 1);
      BodyOutcome(next, input[1..], now, ReadMessage(next, input[1..], now))
    ensures BodyOutcome(m, input, now, ReadMessage(m, input, now))
  {
    ReadMessageByte(m, input, now);
  }

  /** `after` is `before` with `data` written over it from index `from` on. */
  predicate WrittenAt(after: seq<byte>, before: seq<byte>, from: int, data: seq<byte>)
  {
    |after| == |before| && 0 <= from && from + |data| <= |before|
    && forall i :: 0 <= i < |before| ==> after[i] == if from <= i < from + |data| then data[i - from] else before[i]
  }

  /** Writing one byte, then more bytes after it, is writing them all. */
  lemma WrittenAtCons(after: seq<byte>, before: seq<byte>, from: int, b: byte, data: seq<byte>)
    requires 0 <= from < |before| && WrittenAt(after, before[from := b], from + 1, data)
    ensures WrittenAt(after, before, from, [b] + data)
  {
    forall i | 0 <= i < |before|
      ensures after[i] == if from <= i < from + 1 + |data| then ([b] + data)[i - from] else before[i]
    {
      if i == from {
      } else if from < i < from + 1 + |data| {
        assert ([b] + data)[i - from] == data[i - (from + 1)];
      }
    }
  }

  /** Writing the first byte of `input`, then the next `n - 1`, is writing its first `n`. */
  lemma WrittenAtFront(after: seq<byte>, before: seq<byte>, from: int, input: seq<byte>, n: int)
    requires 1 <= n <= |input| && 0 <= from < |before|
    requires WrittenAt(after, before[from := input[0]], from + 1, input[1..][..n - 1])
    ensures WrittenAt(after, before, from, input[..n])
  {
    assert input[..n] == [input[0]] + input[1..][..n - 1];
    WrittenAtCons(after, before, from, input[0], input[1..][..n - 1]);
  }

  /** Writing from index `from` on leaves the bytes before `from` as they were. */
  lemma WrittenAtKeepsPrefix(after: seq<byte>, before: seq<byte>, from: int, data: seq<byte>)
    requires WrittenAt(after, before, from, data)
    ensures after[..from] == before[..from]
  {
  }

  /**
   * The body state appends the bytes it consumes at the cursor, in order, and
   * leaves the rest of the buffer as it was.
   */
  lemma {:induction false} ReadMessageWrites(m: Machine, input: seq<byte>, now: u32)
    requires |m.buffer| == BUFFER_SIZE && 0 <= m.position <= BUFFER_SIZE - TRAILER_LENGTH
    ensures BodyWrites(m, input, ReadMessage(m, input, now))
    decreases |input|
  {
    if input != [] && m.position + TRAILER_LENGTH != BUFFER_SIZE {
      var next := m.(buffer := m.buffer[m.position := input[0]], position := m.position + 1);
      if !EndsWithEnd(next.buffer, next.position) {
        ReadMessageWrites(next, input[1..], now);
      }
      ReadMessageWritesStep(m, input, now);
    } else {
      var r := ReadMessage(m, input, now);
      assert r.rest == input && r.machine.buffer == m.buffer && input[..0] == [];
      assert WrittenAt(r.machine.buffer, m.buffer, m.position, []);
    }
  }

  /** The body state from `m` wrote the bytes it consumed at the cursor and nothing else, and left the trailer's room. */
  predicate BodyWrites(m: Machine, input: seq<byte>, r: Step)
  {
    var n := |input| - |r.rest|;
    0 <= n <= |input| && m.position + n <= BUFFER_SIZE - TRAILER_LENGTH
    && WrittenAt(r.machine.buffer, m.buffer, m.position, input[..n])
  }

  /** The inductive step of `ReadMessageWrites`: one byte, then (unless it completed the end marker) the rest. */
  lemma ReadMessageWritesStep(m: Machine, input: seq<byte>, now: u32)
    requires |m.buffer| == BUFFER_SIZE && 0 <= m.position < BUFFER_SIZE - TRAILER_LENGTH && input != []
    requires var next := m.(buffer := m.buffer[m.position := input[0]], position := m.position + 1);
      !EndsWithEnd(next.buffer, next.position) ==> BodyWrites(next, input[1..], ReadMessage(next, input[1..], now))
    ensures BodyWrites(m, input, ReadMessage(m, input, now))
  {
    var next := m.(buffer := m.buffer[m.position := input[0]], position := m.position + 1);
    var r := ReadMessage(m, input, now);
    var n := |input| - |r.rest|;
    ReadMessageByte(m, input, now);
    if EndsWithEnd(next.buffer, next.position) {
      assert r.machine.buffer == next.buffer && n == 1 && input[1..][..n - 1] == [];
      assert WrittenAt(r.machine.buffer, next.buffer, next.position, []);
    }
    WrittenAtFront(r.machine.buffer, m.buffer, m.position, input, n);
  }

  /** One byte in the body state: overflow, end marker found, or on to the next byte. */
  lemma ReadMessageByte(m: Machine, input: seq<byte>, now: u32)
    requires |m.buffer| == BUFFER_SIZE && 0 <= m.position <= BUFFER_SIZE - TRAILER_LENGTH && input != []
    ensures var next := m.(buffer := m.buffer[m.position := input[0]], position := m.position + 1);
      ReadMessage(m, input, now)
      == if m.position + TRAILER_LENGTH == BUFFER_SIZE then Step(Reset(m, now), input, [])
         else if EndsWithEnd(next.buffer, next.position) then Step(Enter(next, ReadingChecksum, now), input[1..], [])
         else ReadMessage(next, input[1..], now)
  {
  }

  /** The body state keeps the invariant. */
  lemma ReadMessageKeepsInvariant(m: Machine, input: seq<byte>, now: u32)
    requires Invariant(m) && m.state == ReadingMessage
    ensures Invariant(ReadMessage(m, input, now).machine)
  {
    ReadMessageOutcome(m, input, now);
  }

  /** Whether a buffer ends with the end marker at `k` depends only on its first `k` bytes. */
  lemma EndsWithEndPrefix(a: seq<byte>, b: seq<byte>, k: int)
    requires 0 <= k <= |a| && k <= |b| && a[..k] == b[..k]
    ensures EndsWithEnd(a, k) == EndsWithEnd(b, k)
  {
    if k >= |END_SEQUENCE| {
      assert a[k - |END_SEQUENCE|..k] == a[..k][k - |END_SEQUENCE|..];
      assert b[k - |END_SEQUENCE|..k] == b[..k][k - |END_SEQUENCE|..];
    }
  }

  /** The body state does not touch the bytes before its cursor. */
  lemma ReadMessageKeepsPrefix(m: Machine, input: seq<byte>, now: u32)
    requires |m.buffer| == BUFFER_SIZE && 0 <= m.position <= BUFFER_SIZE - TRAILER_LENGTH
    ensures var r := ReadMessage(m, input, now);
      |r.machine.buffer| == BUFFER_SIZE && r.machine.buffer[..m.position] == m.buffer[..m.position]
  {
    var r := ReadMessage(m, input, now);
    var written := input[..|input| - |r.rest|];
    ReadMessageWrites(m, input, now);
    assert WrittenAt(r.machine.buffer, m.buffer, m.position, written);
    WrittenAtKeepsPrefix(r.machine.buffer, m.buffer, m.position, written);
  }

  /** Appending a byte that does not complete the end marker keeps the body state's invariant. */
  lemma BodyByteKeepsInvariant(m: Machine, b: byte)
    requires Invariant(m) && m.state == ReadingMessage && m.position + TRAILER_LENGTH != BUFFER_SIZE
    requires !EndsWithEnd(m.buffer[m.position := b], m.position + 1)
    ensures Invariant(m.(buffer := m.buffer[m.position := b], position := m.position + 1))
  {
    assert m.buffer[m.position := b][..|START_SEQUENCE|] == m.buffer[..|START_SEQUENCE|];
  }

  /** Among the cursor positions `from..to`, the buffer ends with the end marker at `to` when `found`, and at no other. */
  predicate EndOnlyAt(buffer: seq<byte>, from: int, to: int, found: bool)
  {
    forall k :: from <= k <= to ==> (EndsWithEnd(buffer, k) <==> k == to && found)
  }

  /**
   * The body state moves to the trailer exactly at the first byte that
   * completes an end marker: among the cursor positions it passes through, the
   * buffer ends with the end marker at the last one if it moved to the trailer,
   * and at no other.
   */
  lemma {:induction false} ReadMessageFirstEnd(m: Machine, input: seq<byte>, now: u32)
    requires Invariant(m) && m.state == ReadingMessage
    ensures var r := ReadMessage(m, input, now);
      EndOnlyAt(r.machine.buffer, m.position, m.position + |input| - |r.rest|, r.machine.state == ReadingChecksum)
    decreases |input|
  {
    var r := ReadMessage(m, input, now);
    ReadMessageKeepsPrefix(m, input, now);
    EndsWithEndPrefix(r.machine.buffer, m.buffer, m.position);
    if input == [] || m.position + TRAILER_LENGTH == BUFFER_SIZE {
      assert |input| - |r.rest| == 0;
      EndOnlyAtSingle(r.machine.buffer, m.position, r.machine.state == ReadingChecksum);
    } else {
      var next := m.(buffer := m.buffer[m.position := input[0]], position := m.position + 1);
      if EndsWithEnd(next.buffer, next.position) {
        assert r.machine.buffer == next.buffer && r.machine.state == ReadingChecksum;
        EndOnlyAtSingle(r.machine.buffer, next.position, true);
      } else {
        BodyByteKeepsInvariant(m, input[0]);
        assert r == ReadMessage(next, input[1..], now);
        ReadMessageFirstEnd(next, input[1..], now);
      }
      EndOnlyAtExtend(r.machine.buffer, m.position, m.position + |input| - |r.rest|, r.machine.state == ReadingChecksum);
    }
  }

  lemma EndOnlyAtSingle(buffer: seq<byte>, at: int, found: bool)
    requires EndsWithEnd(buffer, at) == found
    ensures EndOnlyAt(buffer, at, at, found)
  {
  }

  lemma EndOnlyAtExtend(buffer: seq<byte>, from: int, to: int, found: bool)
    requires from < to && !EndsWithEnd(buffer, from) && EndOnlyAt(buffer, from + 1, to, found)
    ensures EndOnlyAt(buffer, from, to, found)
  {
  }


  // ---------------------------------------------------------------------------
  // Trailer

  /**
   * The trailer state takes as many bytes as the countdown asks for and input
   * offers, appends them at the cursor, and moves on to processing exactly when
   * the countdown has run out.
   */
  lemma {:induction false} ReadChecksumOutcome(m: Machine, input: seq<byte>, now: u32)
    requires |m.buffer| == BUFFER_SIZE && 0 <= m.position && m.position + m.bytesUntilChecksum <= BUFFER_SIZE
    ensures var r := ReadChecksum(m, input, now);
      var done := m.bytesUntilChecksum <= |input|;
      var n := if done then m.bytesUntilChecksum else |input|;
      r.rest == input[n..] && r.unslotted == []
      && r.machine.state == (if done then ProcessingMessage else m.state)
      && r.machine.position == m.position + n
      && r.machine.bytesUntilChecksum == m.bytesUntilChecksum - n
      && r.machine.lastStateReset == m.lastStateReset && r.machine.slots == m.slots
    decreases |input|
  {
    if m.bytesUntilChecksum > 0 && input != [] {
      var next := m.(buffer := m.buffer[m.position := input[0]], position := m.position + 1,
                     bytesUntilChecksum := m.bytesUntilChecksum - 1);
      ReadChecksumOutcome(next, input[1..], now);
    }
  }

  /** The trailer state appends the bytes it consumes at the cursor and leaves the rest of the buffer as it was. */
  lemma {:induction false} ReadChecksumWrites(m: Machine, input: seq<byte>, now: u32)
    requires |m.buffer| == BUFFER_SIZE && 0 <= m.position && m.position + m.bytesUntilChecksum <= BUFFER_SIZE
    ensures var r := ReadChecksum(m, input, now);
      var n := |input| - |r.rest|;
      n <= m.bytesUntilChecksum && WrittenAt(r.machine.buffer, m.buffer, m.position, input[..n])
    decreases |input|
  {
    if m.bytesUntilChecksum > 0 && input != [] {
      var next := m.(buffer := m.buffer[m.position := input[0]], position := m.position + 1,
                     bytesUntilChecksum := m.bytesUntilChecksum - 1);
      ReadChecksumWrites(next, input[1..], now);
      ReadChecksumWritesByte(m, input, now);
    } else {
      var r := ReadChecksum(m, input, now);
      ReadChecksumStops(m, input, now);
      assert r.rest == input && r.machine.buffer == m.buffer && input[..0] == [];
      assert WrittenAt(r.machine.buffer, m.buffer, m.position, []);
    }
  }

  /** The inductive step of `ReadChecksumWrites`: taking one byte, then what the rest of the routine writes. */
  lemma ReadChecksumWritesByte(m: Machine, input: seq<byte>, now: u32)
    requires |m.buffer| == BUFFER_SIZE && 0 <= m.position && m.position + m.bytesUntilChecksum <= BUFFER_SIZE
    requires m.bytesUntilChecksum > 0 && input != []
    requires var next := m.(buffer := m.buffer[m.position := input[0]], position := m.position + 1,
                            bytesUntilChecksum := m.bytesUntilChecksum - 1);
      var r := ReadChecksum(next, input[1..], now);
      var n := |input[1..]| - |r.rest|;
      n <= next.bytesUntilChecksum && WrittenAt(r.machine.buffer, next.buffer, next.position, input[1..][..n])
    ensures var r := ReadChecksum(m, input, now);
      var n := |input| - |r.rest|;
      n <= m.bytesUntilChecksum && WrittenAt(r.machine.buffer, m.buffer, m.position, input[..n])
  {
    var r := ReadChecksum(m, input, now);
    var n := |input| - |r.rest|;
    ReadChecksumByte(m, input, now);
    WrittenAtFront(r.machine.buffer, m.buffer, m.position, input, n);
  }

  /** One trailer byte taken while the countdown is positive. */
  lemma ReadChecksumByte(m: Machine, input: seq<byte>, now: u32)
    requires |m.buffer| == BUFFER_SIZE && 0 <= m.position && m.position + m.bytesUntilChecksum <= BUFFER_SIZE
    requires m.bytesUntilChecksum > 0 && input != []
    ensures ReadChecksum(m, input, now)
         == ReadChecksum(m.(buffer := m.buffer[m.position := input[0]], position := m.position + 1,
                             bytesUntilChecksum := m.bytesUntilChecksum - 1), input[1..], now)
  {
  }

  /** The trailer state stops taking bytes when the countdown is 0 or no byte is available. */
  lemma ReadChecksumStops(m: Machine, input: seq<byte>, now: u32)
    requires |m.buffer| == BUFFER_SIZE && 0 <= m.position && m.position + m.bytesUntilChecksum <= BUFFER_SIZE
    requires m.bytesUntilChecksum == 0 || input == []
    ensures ReadChecksum(m, input, now)
         == if m.bytesUntilChecksum == 0 then Step(Enter(m, ProcessingMessage, now), input, []) else Step(m, input, [])
  {
  }

  /** The trailer state keeps the invariant: it writes only after the body, and the countdown stays within room. */
  lemma ReadChecksumKeepsInvariant(m: Machine, input: seq<byte>, now: u32)
    requires Invariant(m) && m.state == ReadingChecksum
    ensures Invariant(ReadChecksum(m, input, now).machine)
  {
    ReadChecksumOutcome(m, input, now);
    ReadChecksumKeepsPrefix(m, input, now);
    TrailerKeepsInvariant(m, ReadChecksum(m, input, now).machine);
  }

  /**
   * A machine `r` that the trailer state can reach from `m`: the bytes before
   * the cursor kept, the cursor moved on by as much as the countdown went down,
   * and processing exactly when the countdown ran out.
   */
  lemma TrailerKeepsInvariant(m: Machine, r: Machine)
    requires Invariant(m) && m.state == ReadingChecksum
    requires |r.buffer| == BUFFER_SIZE && |r.slots| == SLOT_COUNT && r.buffer[..m.position] == m.buffer[..m.position]
    requires m.position <= r.position && r.position + r.bytesUntilChecksum == m.position + m.bytesUntilChecksum
    requires (r.state == ProcessingMessage && r.bytesUntilChecksum == 0)
          || (r.state == ReadingChecksum && r.bytesUntilChecksum >= 1)
    ensures Invariant(r)
  {
    var bodyEnd := m.position + m.bytesUntilChecksum - TRAILER_LENGTH;
    var b := r.buffer;
    PrefixOfPrefix(b, m.buffer, m.position, bodyEnd);
    PrefixOfPrefix(b, m.buffer, m.position, |START_SEQUENCE|);
    EndsWithEndPrefix(b, m.buffer, bodyEnd);
    assert b[..|START_SEQUENCE|] == START_SEQUENCE && EndsWithEnd(b, bodyEnd);
  }

  /** The trailer state does not touch the bytes before its cursor. */
  lemma ReadChecksumKeepsPrefix(m: Machine, input: seq<byte>, now: u32)
    requires |m.buffer| == BUFFER_SIZE && 0 <= m.position && m.position + m.bytesUntilChecksum <= BUFFER_SIZE
    ensures var r := ReadChecksum(m, input, now);
      |r.machine.buffer| == BUFFER_SIZE && r.machine.buffer[..m.position] == m.buffer[..m.position]
  {
    var r := ReadChecksum(m, input, now);
    var written := input[..|input| - |r.rest|];
    ReadChecksumWrites(m, input, now);
    assert WrittenAt(r.machine.buffer, m.buffer, m.position, written);
    WrittenAtKeepsPrefix(r.machine.buffer, m.buffer, m.position, written);
  }

  /** Agreement on the first `k` elements implies agreement on the first `j <= k`. */
  lemma PrefixOfPrefix(a: seq<byte>, b: seq<byte>, k: int, j: int)
    requires 0 <= j <= k <= |a| && k <= |b| && a[..k] == b[..k]
    ensures a[..j] == b[..j]
  {
    assert a[..j] == a[..k][..j];
    assert b[..j] == b[..k][..j];
  }

  // ---------------------------------------------------------------------------
  // Processing

  /**
   * Processing consumes nothing and always starts over at time `now`. A frame
   * whose checksum does not match leaves the registers alone. An accepted frame
   * sets register `j` to the value of metric `j` when that metric is found and
   * decodes, and leaves it alone otherwise (register 3 has no metric); every
   * metric has a register.
   */
  lemma ProcessMessageOutcome(m: Machine, input: seq<byte>, now: u32)
    requires Invariant(m) && m.state == ProcessingMessage
    ensures var r := ProcessMessage(m, input, now);
      var frame := m.buffer[..m.position];
      r.rest == input && r.unslotted == [] && Invariant(r.machine)
      && r.machine.state == WaitingForStart && r.machine.position == 0 && r.machine.lastStateReset == now
      && r.machine.buffer == m.buffer
      && (!ChecksumAccepted(frame) ==> r.machine.slots == m.slots)
      && (ChecksumAccepted(frame) ==> forall j :: 0 <= j < SLOT_COUNT ==>
            r.machine.slots[j]
            == if j < |METRICS| && DecodeMetric(frame, METRICS[j].pattern).Some?
               then RegisterValue(DecodeMetric(frame, METRICS[j].pattern).value)
               else m.slots[j])
  {
    var frame := m.buffer[..m.position];
    if ChecksumAccepted(frame) {
      var values := DecodeAll(frame);
      forall j | 0 <= j < SLOT_COUNT
        ensures PublishAll(m.slots, values)[j]
             == if j < |METRICS| && DecodeMetric(frame, METRICS[j].pattern).Some?
                then RegisterValue(DecodeMetric(frame, METRICS[j].pattern).value)
                else m.slots[j]
      {
        PublishAllAt(m.slots, values, j);
      }
    }
  }

  // ---------------------------------------------------------------------------
  // Ticks and the timeout

  /**
   * Starting over waits for the start marker with the cursor at 0 and the clock
   * restarted at `now`, keeps the buffer and the registers, and establishes the
   * invariant from any state with a full-size buffer and four registers.
   */
  lemma ResetKeepsInvariant(m: Machine, now: u32)
    requires |m.buffer| == BUFFER_SIZE && |m.slots| == SLOT_COUNT
    ensures var r := Reset(m, now);
      r.state == WaitingForStart && r.position == 0 && r.lastStateReset == now
      && r.buffer == m.buffer && r.slots == m.slots
    ensures Invariant(Reset(m, now))
  {
  }

  /** The state after `setup` waits for the start marker at cursor 0 with the clock at `now` and the registers given, and satisfies the invariant. */
  lemma InitialInvariant(now: u32, slots: seq<i32>)
    requires |slots| == SLOT_COUNT
    ensures Invariant(Initial(now, slots)) && Initial(now, slots).state == WaitingForStart
    ensures Initial(now, slots).lastStateReset == now && Initial(now, slots).position == 0
    ensures Initial(now, slots).slots == slots
  {
  }

  /** Every tick keeps the invariant and consumes input only from the front. */
  lemma TickKeepsInvariant(m: Machine, input: seq<byte>, now: u32)
    requires Invariant(m)
    ensures var r := Tick(m, input, now);
      Invariant(r.machine) && IsRest(input, r.rest)
  {
    var s := if TimedOut(m, now) then Reset(m, now) else m;
    ResetKeepsInvariant(m, now);
    match s.state
    case WaitingForStart => WaitForStartOutcome(s, input, now);
    case ReadingMessage => ReadMessageOutcome(s, input, now);
    case ReadingChecksum => ReadChecksumKeepsInvariant(s, input, now);
    case ProcessingMessage => ProcessMessageOutcome(s, input, now);
  }

  /**
   * A tick more than `READ_TIMEOUT` seconds after the last reset abandons the
   * frame in progress, whatever the state, and looks for a fresh start marker.
   */
  lemma TimeoutStartsOver(m: Machine, input: seq<byte>, now: u32)
    requires Invariant(m) && TimedOut(m, now)
    ensures Tick(m, input, now) == WaitForStart(Reset(m, now), input, now)
    ensures Reset(m, now).position == 0 && Reset(m, now).lastStateReset == now
  {
  }

  /**
   * With no byte available a tick changes nothing but the timeout: outside the
   * processing state the machine is left as it was, or started over when the
   * frame timed out.
   */
  lemma IdleTick(m: Machine, now: u32)
    requires Invariant(m) && m.state != ProcessingMessage
    ensures var r := Tick(m, [], now);
      r.rest == [] && r.unslotted == [] && r.machine == if TimedOut(m, now) then Reset(m, now) else m
  {
  }

  /**
   * The timeout survives the wrap-around of `millis()`: after a reset 16 ms
   * before the counter wraps, the frame is abandoned from 30.001 seconds on and
   * not at 30 seconds exactly.
   */
  lemma TimeoutAcrossWrap(m: Machine)
    requires m.lastStateReset == 0xFFFF_FFF0
    ensures TimedOut(m, 29985) && !TimedOut(m, 29984)
  {
  }
}
