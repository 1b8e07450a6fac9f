/**
 * A frame through the reader tick by tick: the bytes of a well-formed
 * transport frame, arriving from the serial line in any split across ticks,
 * are read from the start state into the buffer in order, and each tick
 * either takes all the bytes it was given or moves on to a later state.
 * Bytes a state routine leaves unread stay in the serial buffer and are read
 * on the next tick.
 */
module FramingDelivery {
  import opened Bytes
  import opened Framing
  import opened FramingProperties

  /**
   * A transport frame as a meter sends it: the start marker, a body, the end
   * marker and the three trailer bytes (fill-byte count and checksum). The end
   * marker appears nowhere before its place, and the frame fits the buffer.
   */
  predicate WellFramed(frame: seq<byte>)
  {
    |START_SEQUENCE| + |END_SEQUENCE| + TRAILER_LENGTH <= |frame| <= BUFFER_SIZE
    && frame[..|START_SEQUENCE|] == START_SEQUENCE
    && EndsWithEnd(frame, |frame| - TRAILER_LENGTH)
    && forall p :: |START_SEQUENCE| < p < |frame| - TRAILER_LENGTH ==> !EndsWithEnd(frame, p)
  }

  /** `a` and `b` agree on their first `n` elements. */
  predicate Agree(a: seq<byte>, b: seq<byte>, n: nat)
  {
    n <= |a| && n <= |b| && forall i :: 0 <= i < n ==> a[i] == b[i]
  }

  /**
   * The reader has taken exactly the first `n` bytes of `frame`: they are in the
   * buffer before the cursor, and the state is the one those bytes lead to.
   */
  predicate Progress(m: Machine, frame: seq<byte>, n: nat)
  {
    n <= |frame| && |m.buffer| == BUFFER_SIZE && m.position == n && Agree(m.buffer, frame, n)
    && match m.state
       case WaitingForStart => n < |START_SEQUENCE|
       case ReadingMessage => |START_SEQUENCE| <= n < |frame| - TRAILER_LENGTH
       case ReadingChecksum => |frame| - TRAILER_LENGTH <= n < |frame| && m.bytesUntilChecksum == |frame| - n
       case ProcessingMessage => n == |frame|
  }

  /** The order in which a frame passes through the states. */
  function Rank(s: State): nat
  {
    match s
    case WaitingForStart => 0
    case ReadingMessage => 1
    case ReadingChecksum => 2
    case ProcessingMessage => 3
  }

  /** No tick of `nows` comes more than `READ_TIMEOUT` seconds after `since`. */
  predicate OnTime(since: u32, nows: seq<u32>)
  {
    forall i :: 0 <= i < |nows| ==> ElapsedU32(nows[i], since) <= READ_TIMEOUT * 1000
  }

  /** The concatenation of `chunks`. */
  function Concat(chunks: seq<seq<byte>>): seq<byte>
    decreases |chunks|
  {
    if chunks == [] then [] else chunks[0] + Concat(chunks[1..])
  }

  /**
   * `run_current_state` outside the processing state, where the routine it runs
   * reads bytes: start over if the frame timed out, then run the start, body or
   * trailer routine. It is `Tick` there (`ReadingTickIsTick`).
   */
  function ReadingTick(m: Machine, input: seq<byte>, now: u32): Step
    requires Invariant(m) && m.state != ProcessingMessage
  {
    var s := if TimedOut(m, now) then Reset(m, now) else m;
    if s.state == WaitingForStart then WaitForStart(s, input, now)
    else if s.state == ReadingMessage then ReadMessage(s, input, now)
    else ReadChecksum(s, input, now)
  }

  /** Outside the processing state, a reading tick is a tick. */
  lemma ReadingTickIsTick(m: Machine, input: seq<byte>, now: u32)
    requires Invariant(m) && m.state != ProcessingMessage
    ensures ReadingTick(m, input, now) == Tick(m, input, now)
  {
  }

  /** A reading tick keeps the invariant and consumes input only from the front. */
  lemma ReadingTickKeepsInvariant(m: Machine, input: seq<byte>, now: u32)
    requires Invariant(m) && m.state != ProcessingMessage
    ensures Invariant(ReadingTick(m, input, now).machine) && IsRest(input, ReadingTick(m, input, now).rest)
  {
    ReadingTickIsTick(m, input, now);
    TickKeepsInvariant(m, input, now);
  }

  /**
   * The reader over a sequence of ticks: before tick `i` the bytes `chunks[i]`
   * arrive behind the `pending` ones, and tick `i` runs at time `nows[i]`.
   * Stops, with the pending bytes, once a frame is ready for processing; until
   * then every tick is a reading tick.
   */
  function Deliver(m: Machine, pending: seq<byte>, chunks: seq<seq<byte>>, nows: seq<u32>): Step
    requires Invariant(m) && |nows| == |chunks|
    decreases |chunks|
  {
    if chunks == [] || m.state == ProcessingMessage then Step(m, pending, [])
    else
      ReadingTickKeepsInvariant(m, pending + chunks[0], nows[0]);
      var t := ReadingTick(m, pending + chunks[0], nows[0]);
      Deliver(t.machine, t.rest, chunks[1..], nows[1..])
  }

  /**
   * The ticks `Deliver` leaves to later: none when it ran through all of them,
   * otherwise every tick from the one after the frame became ready.
   */
  function Undelivered(m: Machine, pending: seq<byte>, chunks: seq<seq<byte>>, nows: seq<u32>): (r: seq<seq<byte>>)
    requires Invariant(m) && |nows| == |chunks|
    ensures |r| <= |chunks| && r == chunks[|chunks| - |r|..]
    decreases |chunks|
  {
    if chunks == [] || m.state == ProcessingMessage then chunks
    else
      ReadingTickKeepsInvariant(m, pending + chunks[0], nows[0]);
      var t := ReadingTick(m, pending + chunks[0], nows[0]);
      var r := Undelivered(t.machine, t.rest, chunks[1..], nows[1..]);
      assert chunks[1..][|chunks| - 1 - |r|..] == chunks[|chunks| - |r|..];
      r
  }

  /** Whether a buffer ends with the end marker at `p` depends only on its first `p` bytes. */
  lemma EndsAlike(a: seq<byte>, b: seq<byte>, p: nat)
    requires Agree(a, b, p)
    ensures EndsWithEnd(a, p) == EndsWithEnd(b, p)
  {
    if |END_SEQUENCE| <= p {
      assert a[p - |END_SEQUENCE|..p] == b[p - |END_SEQUENCE|..p];
    }
  }

  /**
   * A buffer that agrees with a well-formed frame, on whose positions
   * `from..to` the end marker is found at most at `to`, stops at or before the
   * frame's end marker, and found it exactly when it stops there.
   */
  lemma EndFoundAtFrameEnd(buffer: seq<byte>, frame: seq<byte>, from: nat, to: nat, found: bool)
    requires WellFramed(frame) && Agree(buffer, frame, to)
    requires |START_SEQUENCE| <= from < |frame| - TRAILER_LENGTH && from <= to
    requires EndOnlyAt(buffer, from, to, found)
    ensures to <= |frame| - TRAILER_LENGTH && (found <==> to == |frame| - TRAILER_LENGTH)
  {
    var t := |frame| - TRAILER_LENGTH;
    if to >= t {
      EndsAlike(buffer, frame, t);
    } else {
      EndsAlike(buffer, frame, to);
      if to == |START_SEQUENCE| {
        EightBytesAreNoEnd(frame);
      }
    }
  }

  /** The next bytes of a frame, while the start marker is being matched, are the marker's next bytes. */
  lemma StartBytes(frame: seq<byte>, n: nat, input: seq<byte>)
    requires WellFramed(frame) && n < |START_SEQUENCE| && n + |input| <= |frame| && input == frame[n..n + |input|]
    ensures n + |input| < |START_SEQUENCE| ==> input == START_SEQUENCE[n..n + |input|]
    ensures n + |input| >= |START_SEQUENCE| ==> START_SEQUENCE[n..] <= input
  {
    if n + |input| < |START_SEQUENCE| {
      forall i | 0 <= i < |input|
        ensures input[i] == START_SEQUENCE[n..n + |input|][i]
      {
        assert frame[..|START_SEQUENCE|][n + i] == frame[n + i];
      }
    } else {
      forall i | 0 <= i < |START_SEQUENCE| - n
        ensures input[i] == START_SEQUENCE[n..][i]
      {
        assert frame[..|START_SEQUENCE|][n + i] == frame[n + i];
      }
    }
  }

  /** A buffer holding the first `p` marker bytes agrees with a well-formed frame on them. */
  lemma MarkerAgrees(buffer: seq<byte>, frame: seq<byte>, p: nat)
    requires WellFramed(frame) && p <= |START_SEQUENCE| && p <= |buffer| && buffer[..p] == START_SEQUENCE[..p]
    ensures Agree(buffer, frame, p)
  {
    forall i | 0 <= i < p
      ensures buffer[i] == frame[i]
    {
      assert buffer[..p][i] == START_SEQUENCE[..p][i];
      assert frame[..|START_SEQUENCE|][i] == frame[i];
    }
  }

  /**
   * A run `r` of the start state on the next bytes of a frame that either took
   * them all without completing the marker, or stopped right after the marker,
   * has taken the frame up to where it stopped.
   */
  lemma StartProgress(m: Machine, frame: seq<byte>, n: nat, input: seq<byte>, r: Step)
    requires WellFramed(frame) && Progress(m, frame, n) && m.state == WaitingForStart && n + |input| <= |frame|
    requires Invariant(r.machine) && IsRest(input, r.rest)
    requires r.machine.state == WaitingForStart || r.machine.state == ReadingMessage
    requires r.machine.state == WaitingForStart ==>
      r.rest == [] && r.machine.position == n + |input| < |START_SEQUENCE|
    requires r.machine.state == ReadingMessage ==>
      r.machine.position == |START_SEQUENCE| && r.machine.position == n + |input| - |r.rest|
    ensures Progress(r.machine, frame, n + |input| - |r.rest|)
  {
    if r.machine.state == WaitingForStart {
      MarkerAgrees(r.machine.buffer, frame, r.machine.position);
    } else {
      assert START_SEQUENCE[..|START_SEQUENCE|] == START_SEQUENCE;
      MarkerAgrees(r.machine.buffer, frame, |START_SEQUENCE|);
    }
  }

  /** The start state on the next bytes of a frame: it matches the marker and moves on right after it. */
  lemma StartTick(m: Machine, frame: seq<byte>, n: nat, input: seq<byte>, now: u32)
    requires WellFramed(frame) && Invariant(m) && m.state == WaitingForStart && Progress(m, frame, n)
    requires n + |input| <= |frame| && input == frame[n..n + |input|]
    ensures var r := WaitForStart(m, input, now);
      Progress(r.machine, frame, n + |input| - |r.rest|)
      && r.machine.lastStateReset == m.lastStateReset && r.machine.slots == m.slots
      && (r.rest != [] ==> r.machine.state == ReadingMessage)
  {
    WaitForStartOutcome(m, input, now);
    StartBytes(frame, n, input);
    if n + |input| < |START_SEQUENCE| {
      StartMatchAdvances(m, input, now);
    } else {
      StartMatchCompletes(m, input, now);
    }
    StartProgress(m, frame, n, input, WaitForStart(m, input, now));
  }

  /** Bytes written from the cursor that are the frame's next bytes extend the agreement with the frame. */
  lemma WrittenAgrees(after: seq<byte>, before: seq<byte>, frame: seq<byte>, n: nat, input: seq<byte>, c: nat)
    requires Agree(before, frame, n) && n + |input| <= |frame| && input == frame[n..n + |input|] && c <= |input|
    requires WrittenAt(after, before, n, input[..c])
    ensures Agree(after, frame, n + c)
  {
    forall i | 0 <= i < n + c
      ensures after[i] == frame[i]
    {
      if i >= n {
        assert input[..c][i - n] == frame[n..n + |input|][i - n];
      }
    }
  }

  /**
   * A run `r` of the body state on the next bytes of a frame, ending in one of
   * the ways it can, stops exactly after the frame's end marker.
   */
  lemma BodyProgress(m: Machine, frame: seq<byte>, n: nat, input: seq<byte>, now: u32, r: Step)
    requires WellFramed(frame) && m.state == ReadingMessage && Progress(m, frame, n)
    requires n + |input| <= |frame| && input == frame[n..n + |input|]
    requires BodyOutcome(m, input, now, r) && BodyWrites(m, input, r)
    requires EndOnlyAt(r.machine.buffer, m.position, m.position + |input| - |r.rest|, r.machine.state == ReadingChecksum)
    ensures Progress(r.machine, frame, n + |input| - |r.rest|)
      && r.machine.lastStateReset == m.lastStateReset && r.machine.slots == m.slots
      && (r.rest != [] ==> r.machine.state == ReadingChecksum)
  {
    var c := |input| - |r.rest|;
    WrittenAgrees(r.machine.buffer, m.buffer, frame, n, input, c);
    EndFoundAtFrameEnd(r.machine.buffer, frame, n, n + c, r.machine.state == ReadingChecksum);
  }

  /** The body state on the next bytes of a frame: it stops exactly after the frame's end marker. */
  lemma BodyTick(m: Machine, frame: seq<byte>, n: nat, input: seq<byte>, now: u32)
    requires WellFramed(frame) && Invariant(m) && m.state == ReadingMessage && Progress(m, frame, n)
    requires n + |input| <= |frame| && input == frame[n..n + |input|]
    ensures var r := ReadMessage(m, input, now);
      Progress(r.machine, frame, n + |input| - |r.rest|)
      && r.machine.lastStateReset == m.lastStateReset && r.machine.slots == m.slots
      && (r.rest != [] ==> r.machine.state == ReadingChecksum)
  {
    ReadMessageOutcome(m, input, now);
    ReadMessageWrites(m, input, now);
    ReadMessageFirstEnd(m, input, now);
    BodyProgress(m, frame, n, input, now, ReadMessage(m, input, now));
  }

  /** The trailer state on the next bytes of a frame: it takes them all and moves on after the last one. */
  lemma TrailerTick(m: Machine, frame: seq<byte>, n: nat, input: seq<byte>, now: u32)
    requires Invariant(m) && m.state == ReadingChecksum && Progress(m, frame, n)
    requires n + |input| <= |frame| && input == frame[n..n + |input|]
    ensures var r := ReadChecksum(m, input, now);
      Progress(r.machine, frame, n + |input| - |r.rest|)
      && r.machine.lastStateReset == m.lastStateReset && r.machine.slots == m.slots
      && r.rest == []
  {
    var r := ReadChecksum(m, input, now);
    ReadChecksumOutcome(m, input, now);
    ReadChecksumWrites(m, input, now);
    WrittenAgrees(r.machine.buffer, m.buffer, frame, n, input, |input| - |r.rest|);
  }

  /**
   * A tick `r` from `m` on the next bytes of a frame took some of them into the
   * buffer, left some unread only when it moved on to a later state, and kept
   * the clock and the published values.
   */
  predicate Advanced(m: Machine, frame: seq<byte>, n: nat, input: seq<byte>, r: Step)
  {
    Invariant(r.machine) && IsRest(input, r.rest) && Progress(r.machine, frame, n + |input| - |r.rest|)
    && r.machine.lastStateReset == m.lastStateReset && r.machine.slots == m.slots
    && (r.rest != [] ==> Rank(r.machine.state) > Rank(m.state))
  }

  /** One tick on time on the next bytes of a frame advances the reader through it. */
  lemma FrameTick(m: Machine, frame: seq<byte>, n: nat, input: seq<byte>, now: u32)
    requires WellFramed(frame) && Invariant(m) && Progress(m, frame, n) && m.state != ProcessingMessage
    requires ElapsedU32(now, m.lastStateReset) <= READ_TIMEOUT * 1000
    requires n + |input| <= |frame| && input == frame[n..n + |input|]
    ensures Advanced(m, frame, n, input, ReadingTick(m, input, now))
  {
    ReadingTickKeepsInvariant(m, input, now);
    match m.state
    case WaitingForStart => StartTick(m, frame, n, input, now);
    case ReadingMessage => BodyTick(m, frame, n, input, now);
    case ReadingChecksum => TrailerTick(m, frame, n, input, now);
  }

  /** The first tick of a run of ticks on time, and the rest of the run, are on time. */
  lemma OnTimeSplit(since: u32, nows: seq<u32>)
    requires nows != [] && OnTime(since, nows)
    ensures ElapsedU32(nows[0], since) <= READ_TIMEOUT * 1000 && OnTime(since, nows[1..])
  {
    forall i | 0 <= i < |nows[1..]|
      ensures ElapsedU32(nows[1..][i], since) <= READ_TIMEOUT * 1000
    {
      assert nows[1..][i] == nows[i + 1];
    }
  }

  /** A run of ticks on time, cut in two, gives two runs on time. */
  lemma OnTimeCut(since: u32, nows: seq<u32>, k: nat)
    requires k <= |nows| && OnTime(since, nows)
    ensures OnTime(since, nows[..k]) && OnTime(since, nows[k..])
  {
    forall i | 0 <= i < k
      ensures ElapsedU32(nows[..k][i], since) <= READ_TIMEOUT * 1000
    {
      assert nows[..k][i] == nows[i];
    }
    forall i | 0 <= i < |nows| - k
      ensures ElapsedU32(nows[k..][i], since) <= READ_TIMEOUT * 1000
    {
      assert nows[k..][i] == nows[k + i];
    }
  }

  /** One step of `Deliver`: the first tick, then the remaining ones from where it left off. */
  lemma DeliverFirst(m: Machine, pending: seq<byte>, chunks: seq<seq<byte>>, nows: seq<u32>)
    requires Invariant(m) && |nows| == |chunks| && chunks != [] && m.state != ProcessingMessage
    ensures var t := ReadingTick(m, pending + chunks[0], nows[0]);
      Invariant(t.machine) && Deliver(m, pending, chunks, nows) == Deliver(t.machine, t.rest, chunks[1..], nows[1..])
  {
    ReadingTickKeepsInvariant(m, pending + chunks[0], nows[0]);
  }

  /**
   * `Deliver` runs the reader's own ticks: until a frame is ready, it is one
   * `run_current_state` on the pending bytes and the first chunk, then
   * `Deliver` on the rest from where that tick left off.
   */
  lemma DeliverTicks(m: Machine, pending: seq<byte>, chunks: seq<seq<byte>>, nows: seq<u32>)
    requires Invariant(m) && |nows| == |chunks| && chunks != [] && m.state != ProcessingMessage
    ensures var t := Tick(m, pending + chunks[0], nows[0]);
      Invariant(t.machine) && Deliver(m, pending, chunks, nows) == Deliver(t.machine, t.rest, chunks[1..], nows[1..])
  {
    ReadingTickIsTick(m, pending + chunks[0], nows[0]);
    DeliverFirst(m, pending, chunks, nows);
  }

  /** What a tick leaves unread, followed by the bytes still to come, is the rest of the frame. */
  lemma PendingAfterTick(frame: seq<byte>, n: nat, input: seq<byte>, rest: seq<byte>, later: seq<byte>)
    requires n <= |frame| && input + later == frame[n..] && IsRest(input, rest)
    ensures rest + later == frame[n + |input| - |rest|..]
  {
    var k := |input| - |rest|;
    assert rest + later == (input + later)[k..];
  }

  /** Bytes that are a prefix of the rest of the frame are the frame's next bytes. */
  lemma NextBytes(frame: seq<byte>, n: nat, input: seq<byte>, later: seq<byte>)
    requires n <= |frame| && input + later == frame[n..]
    ensures n + |input| <= |frame| && input == frame[n..n + |input|]
  {
    assert input == (input + later)[..|input|];
  }

  /**
   * What a run `r` of ticks from `m`, having taken a frame from byte `n` on,
   * leaves: the reader has taken the frame up to the bytes still pending, in
   * order, and kept the clock and the published values.
   */
  predicate Delivered(m: Machine, frame: seq<byte>, n: nat, r: Step)
  {
    Invariant(r.machine) && |r.rest| + n <= |frame|
    && Progress(r.machine, frame, |frame| - |r.rest|) && r.rest == frame[|frame| - |r.rest|..]
    && r.machine.lastStateReset == m.lastStateReset && r.machine.slots == m.slots
  }

  /** The first tick of a delivery on time leaves the reader further into the frame, with the rest of it to come. */
  lemma FirstTickAdvances(m: Machine, frame: seq<byte>, n: nat, pending: seq<byte>,
                          chunks: seq<seq<byte>>, nows: seq<u32>)
    requires WellFramed(frame) && Invariant(m) && Progress(m, frame, n) && m.state != ProcessingMessage
    requires pending + Concat(chunks) == frame[n..] && chunks != []
    requires |nows| == |chunks| && OnTime(m.lastStateReset, nows)
    ensures var t := ReadingTick(m, pending + chunks[0], nows[0]);
      var next := n + |pending + chunks[0]| - |t.rest|;
      n <= next <= |frame| && Invariant(t.machine) && Progress(t.machine, frame, next)
      && t.rest + Concat(chunks[1..]) == frame[next..] && OnTime(t.machine.lastStateReset, nows[1..])
      && t.machine.lastStateReset == m.lastStateReset && t.machine.slots == m.slots
      && (t.rest != [] ==> t.machine.state != WaitingForStart)
  {
    var input := pending + chunks[0];
    var later := Concat(chunks[1..]);
    assert input + later == frame[n..];
    NextBytes(frame, n, input, later);
    OnTimeSplit(m.lastStateReset, nows);
    FrameTick(m, frame, n, input, nows[0]);
    var t := ReadingTick(m, input, nows[0]);
    PendingAfterTick(frame, n, input, t.rest, later);
  }

  /**
   * Ticks on time whose chunks carry the rest of a frame: afterwards the reader
   * has taken the frame up to the bytes still pending, in order.
   */
  lemma {:induction false} DeliverProgress(m: Machine, frame: seq<byte>, n: nat, pending: seq<byte>,
                                           chunks: seq<seq<byte>>, nows: seq<u32>)
    requires WellFramed(frame) && Invariant(m) && Progress(m, frame, n)
    requires pending + Concat(chunks) == frame[n..]
    requires |nows| == |chunks| && OnTime(m.lastStateReset, nows)
    ensures Delivered(m, frame, n, Deliver(m, pending, chunks, nows))
    decreases |chunks|
  {
    if chunks == [] {
      assert pending == frame[n..];
    } else if m.state == ProcessingMessage {
      assert pending == frame[n..][..|pending|];
    } else {
      FirstTickAdvances(m, frame, n, pending, chunks, nows);
      DeliverFirst(m, pending, chunks, nows);
      var t := ReadingTick(m, pending + chunks[0], nows[0]);
      DeliverProgress(t.machine, frame, n + |pending + chunks[0]| - |t.rest|, t.rest, chunks[1..], nows[1..]);
    }
  }

  /**
   * Ticks on time whose chunks carry the rest of a frame take all of it: the
   * ticks left over once the frame is ready bring no byte, and after the last
   * tick the reader is still in the start state only if nothing is pending.
   */
  lemma {:induction false} DeliverTakesAll(m: Machine, frame: seq<byte>, n: nat, pending: seq<byte>,
                                           chunks: seq<seq<byte>>, nows: seq<u32>)
    requires WellFramed(frame) && Invariant(m) && Progress(m, frame, n)
    requires pending + Concat(chunks) == frame[n..]
    requires |nows| == |chunks| && OnTime(m.lastStateReset, nows)
    ensures Concat(Undelivered(m, pending, chunks, nows)) == []
    ensures var d := Deliver(m, pending, chunks, nows);
      chunks != [] && d.machine.state == WaitingForStart ==> d.rest == []
    decreases |chunks|
  {
    if chunks == [] {
    } else if m.state == ProcessingMessage {
      assert |pending + Concat(chunks)| == 0;
    } else {
      FirstTickAdvances(m, frame, n, pending, chunks, nows);
      DeliverFirst(m, pending, chunks, nows);
      var t := ReadingTick(m, pending + chunks[0], nows[0]);
      DeliverTakesAll(t.machine, frame, n + |pending + chunks[0]| - |t.rest|, t.rest, chunks[1..], nows[1..]);
    }
  }

  /** A tick without new bytes, once all of a frame has arrived, advances the reader through it. */
  lemma IdleTickAdvances(m: Machine, frame: seq<byte>, pending: seq<byte>, now: u32)
    requires WellFramed(frame) && Invariant(m) && m.state != ProcessingMessage && |pending| <= |frame|
    requires Progress(m, frame, |frame| - |pending|) && pending == frame[|frame| - |pending|..]
    requires ElapsedU32(now, m.lastStateReset) <= READ_TIMEOUT * 1000
    ensures var t := ReadingTick(m, pending, now);
      Invariant(t.machine) && |t.rest| <= |pending| && Progress(t.machine, frame, |frame| - |t.rest|)
      && t.rest == frame[|frame| - |t.rest|..] && (t.rest != [] ==> Rank(t.machine.state) > Rank(m.state))
      && (t.rest == [] ==> t.machine.state == ProcessingMessage)
      && t.machine.lastStateReset == m.lastStateReset && t.machine.slots == m.slots
  {
    var n := |frame| - |pending|;
    NextBytes(frame, n, pending, []);
    FrameTick(m, frame, n, pending, now);
    var t := ReadingTick(m, pending, now);
    PendingAfterTick(frame, n, pending, t.rest, []);
  }
}
