/**
 * A whole frame end to end: fed from the start state in any split, on ticks
 * that come on time, a well-formed frame lands in the buffer whole within two
 * ticks without new bytes, and `loop()` processes it on the tick after that,
 * publishing its metrics when its checksum matches and going back to waiting
 * for the next frame.
 */
module FramingEndToEnd {
  import opened Bytes
  import opened Crc16
  import opened Tlv
  import opened Publisher
  import opened Framing
  import opened FramingProperties
  import opened FramingDelivery

  /** `k` ticks on which no new byte arrives. */
  function Idle(k: nat): (r: seq<seq<byte>>)
    ensures |r| == k
  {
    if k == 0 then [] else [[]] + Idle(k - 1)
  }

  /** A run of idle ticks is one idle tick followed by the others. */
  lemma IdleFirst(k: nat)
    requires k > 0
    ensures Idle(k)[0] == [] && Idle(k)[1..] == Idle(k - 1)
  {
  }

  /** A run `r` of ticks from `m` ended with the whole frame taken and ready for processing. */
  predicate Finished(m: Machine, frame: seq<byte>, r: Step)
  {
    Invariant(r.machine) && r.machine.state == ProcessingMessage && r.rest == [] && Progress(r.machine, frame, |frame|)
    && r.machine.lastStateReset == m.lastStateReset && r.machine.slots == m.slots
  }

  /** The inductive step of `IdleTicksFinish`: one idle tick, then the others from where it left off. */
  lemma IdleTicksStep(m: Machine, frame: seq<byte>, pending: seq<byte>, k: nat, nows: seq<u32>, t: Step)
    requires Invariant(m) && m.state != ProcessingMessage && |nows| == k > 0 && t == ReadingTick(m, pending, nows[0])
    requires Invariant(t.machine) && t.machine.lastStateReset == m.lastStateReset && t.machine.slots == m.slots
    requires Finished(t.machine, frame, Deliver(t.machine, t.rest, Idle(k - 1), nows[1..]))
    ensures Finished(m, frame, Deliver(m, pending, Idle(k), nows))
  {
    IdleFirst(k);
    assert pending + Idle(k)[0] == pending;
    DeliverFirst(m, pending, Idle(k), nows);
  }

  /**
   * The reader has taken a whole frame up to the `pending` bytes, and `k` idle
   * ticks on time, enough to pass through the states still ahead, follow.
   */
  predicate Finishing(m: Machine, frame: seq<byte>, pending: seq<byte>, k: nat, nows: seq<u32>)
  {
    WellFramed(frame) && Invariant(m) && |pending| <= |frame|
    && Progress(m, frame, |frame| - |pending|) && pending == frame[|frame| - |pending|..]
    && |nows| == k && Rank(m.state) + k >= 3 && OnTime(m.lastStateReset, nows)
  }

  /** The first of the idle ticks leaves the reader finishing with one tick fewer. */
  lemma FinishingTick(m: Machine, frame: seq<byte>, pending: seq<byte>, k: nat, nows: seq<u32>) returns (t: Step)
    requires Finishing(m, frame, pending, k, nows) && m.state != ProcessingMessage
    ensures k > 0 && t == ReadingTick(m, pending, nows[0])
    ensures Finishing(t.machine, frame, t.rest, k - 1, nows[1..])
    ensures t.machine.lastStateReset == m.lastStateReset && t.machine.slots == m.slots
  {
    t := ReadingTick(m, pending, nows[0]);
    OnTimeSplit(m.lastStateReset, nows);
    IdleTickAdvances(m, frame, pending, nows[0]);
  }

  /**
   * Once all of a frame has arrived, as many more ticks on time as there are
   * states ahead of the reader bring it to processing: each one either takes
   * every pending byte or moves the reader on to a later state.
   */
  lemma {:induction false} IdleTicksFinish(m: Machine, frame: seq<byte>, pending: seq<byte>, k: nat, nows: seq<u32>)
    requires Finishing(m, frame, pending, k, nows)
    ensures Finished(m, frame, Deliver(m, pending, Idle(k), nows))
    decreases k
  {
    if m.state != ProcessingMessage {
      var t := FinishingTick(m, frame, pending, k, nows);
      IdleTicksFinish(t.machine, frame, t.rest, k - 1, nows[1..]);
      IdleTicksStep(m, frame, pending, k, nows, t);
    } else {
      FinishingDone(m, frame, pending, k, nows);
    }
  }

  /** A finishing reader that is already ready for processing has nothing pending and stays put. */
  lemma FinishingDone(m: Machine, frame: seq<byte>, pending: seq<byte>, k: nat, nows: seq<u32>)
    requires Finishing(m, frame, pending, k, nows) && m.state == ProcessingMessage
    ensures Finished(m, frame, Deliver(m, pending, Idle(k), nows))
  {
    NothingPending(m, frame, pending);
    AlreadyFinished(m, frame, k, nows);
  }

  /** A reader ready for processing has taken every byte of the frame. */
  lemma NothingPending(m: Machine, frame: seq<byte>, pending: seq<byte>)
    requires m.state == ProcessingMessage && |pending| <= |frame| && Progress(m, frame, |frame| - |pending|)
    ensures pending == []
  {
  }

  /** A reader already holding the whole frame stays put, whatever ticks follow. */
  lemma AlreadyFinished(m: Machine, frame: seq<byte>, k: nat, nows: seq<u32>)
    requires Invariant(m) && m.state == ProcessingMessage && |nows| == k && Progress(m, frame, |frame|)
    ensures Finished(m, frame, Deliver(m, [], Idle(k), nows))
  {
    assert Deliver(m, [], Idle(k), nows) == Step(m, [], []);
  }

  /** Delivering two runs of chunks is delivering the first, then the second from where the first left off. */
  lemma {:induction false} DeliverAppend(m: Machine, pending: seq<byte>, a: seq<seq<byte>>, b: seq<seq<byte>>, nows: seq<u32>)
    requires Invariant(m) && |nows| == |a| + |b|
    ensures var d := Deliver(m, pending, a, nows[..|a|]);
      Invariant(d.machine)
      && Deliver(m, pending, a + b, nows) == Deliver(d.machine, d.rest, b, nows[|a|..])
    decreases |a|
  {
    if a != [] && m.state != ProcessingMessage {
      ReadingTickKeepsInvariant(m, pending + a[0], nows[0]);
      var t := ReadingTick(m, pending + a[0], nows[0]);
      assert (a + b)[0] == a[0] && (a + b)[1..] == a[1..] + b;
      DeliverAppend(t.machine, t.rest, a[1..], b, nows[1..]);
      assert nows[1..][..|a[1..]|] == nows[..|a|][1..];
      assert nows[1..][|a[1..]|..] == nows[|a|..];
    } else if a == [] {
      assert a + b == b && nows[..|a|] == [] && nows[|a|..] == nows;
    }
  }

  /**
   * A well-formed frame, split into chunks in any way and fed from the start
   * state on ticks that come on time, followed by two ticks without new bytes,
   * brings the reader to processing with exactly the frame in the buffer and no
   * byte left over.
   */
  lemma FrameReachesProcessing(m: Machine, frame: seq<byte>, chunks: seq<seq<byte>>, nows: seq<u32>)
    requires WellFramed(frame) && Invariant(m) && m.state == WaitingForStart && m.position == 0
    requires Concat(chunks) == frame && |nows| == |chunks| + 2 && OnTime(m.lastStateReset, nows)
    ensures var r := Deliver(m, [], chunks + Idle(2), nows);
      Invariant(r.machine) && r.machine.state == ProcessingMessage && r.rest == []
      && r.machine.position == |frame| <= |r.machine.buffer| && r.machine.buffer[..|frame|] == frame
      && r.machine.lastStateReset == m.lastStateReset && r.machine.slots == m.slots
  {
    OnTimeCut(m.lastStateReset, nows, |chunks|);
    assert [] + Concat(chunks) == frame[0..];
    DeliverProgress(m, frame, 0, [], chunks, nows[..|chunks|]);
    DeliverTakesAll(m, frame, 0, [], chunks, nows[..|chunks|]);
    var d := Deliver(m, [], chunks, nows[..|chunks|]);
    DeliveredThenIdle(m, frame, chunks, d, nows[|chunks|..]);
    IdleTicksFinish(d.machine, frame, d.rest, 2, nows[|chunks|..]);
    DeliverAppend(m, [], chunks, Idle(2), nows);
    FinishedHoldsFrame(m, d.machine, frame, Deliver(m, [], chunks + Idle(2), nows));
  }

  /**
   * A frame taken whole but for the pending bytes, by ticks that have left the
   * start state unless nothing is pending, followed by two idle ticks on time,
   * is finishing.
   */
  lemma DeliveredThenIdle(m: Machine, frame: seq<byte>, chunks: seq<seq<byte>>, d: Step, nows: seq<u32>)
    requires WellFramed(frame) && Delivered(m, frame, 0, d) && |nows| == 2 && OnTime(m.lastStateReset, nows)
    requires d.machine.state == WaitingForStart ==> d.rest == []
    ensures Finishing(d.machine, frame, d.rest, 2, nows)
  {
  }

  /** A run that finished from an intermediate machine `d` with the clock of `m` holds exactly the frame. */
  lemma FinishedHoldsFrame(m: Machine, d: Machine, frame: seq<byte>, r: Step)
    requires Finished(d, frame, r) && d.lastStateReset == m.lastStateReset && d.slots == m.slots
    ensures Invariant(r.machine) && r.machine.state == ProcessingMessage && r.rest == []
      && r.machine.position == |frame| <= |r.machine.buffer| && r.machine.buffer[..|frame|] == frame
      && r.machine.lastStateReset == m.lastStateReset && r.machine.slots == m.slots
  {
    assert r.machine.buffer[..|frame|] == frame;
  }

  /**
   * The tick after a frame is ready, if it comes on time, processes exactly
   * that frame and starts over: a frame whose checksum does not match leaves
   * the registers alone, and an accepted one sets each register whose metric
   * it carries.
   */
  lemma ReadyFrameProcessed(m: Machine, frame: seq<byte>, now: u32)
    requires Invariant(m) && m.state == ProcessingMessage && ElapsedU32(now, m.lastStateReset) <= READ_TIMEOUT * 1000
    requires m.position == |frame| <= |m.buffer| && m.buffer[..|frame|] == frame
    ensures |frame| >= 2
    ensures var p := Tick(m, [], now);
      Invariant(p.machine) && p.rest == [] && p.machine.state == WaitingForStart && p.machine.position == 0 && p.machine.lastStateReset == now
      && (!ChecksumAccepted(frame) ==> p.machine.slots == m.slots)
      && (ChecksumAccepted(frame) ==> forall j :: 0 <= j < SLOT_COUNT ==>
            p.machine.slots[j]
            == if j < |METRICS| && DecodeMetric(frame, METRICS[j].pattern).Some?
               then RegisterValue(DecodeMetric(frame, METRICS[j].pattern).value)
               else m.slots[j])
  {
    ProcessMessageOutcome(m, [], now);
    assert Tick(m, [], now) == ProcessMessage(m, [], now);
  }

  /**
   * `loop()` over a sequence of ticks: before tick `i` the bytes `chunks[i]`
   * arrive behind the `pending` ones, and tick `i` runs `run_current_state` at
   * time `nows[i]`, whatever the state. Every run keeps the invariant.
   */
  function Run(m: Machine, pending: seq<byte>, chunks: seq<seq<byte>>, nows: seq<u32>): (r: Step)
    requires Invariant(m) && |nows| == |chunks|
    ensures Invariant(r.machine)
    decreases |chunks|
  {
    if chunks == [] then Step(m, pending, [])
    else
      TickKeepsInvariant(m, pending + chunks[0], nows[0]);
      var t := Tick(m, pending + chunks[0], nows[0]);
      Run(t.machine, t.rest, chunks[1..], nows[1..])
  }

  /** One step of `Run`: the first tick, then the remaining ones from where it left off. */
  lemma RunFirst(m: Machine, pending: seq<byte>, chunks: seq<seq<byte>>, nows: seq<u32>)
    requires Invariant(m) && |nows| == |chunks| && chunks != []
    ensures var t := Tick(m, pending + chunks[0], nows[0]);
      Invariant(t.machine) && Run(m, pending, chunks, nows) == Run(t.machine, t.rest, chunks[1..], nows[1..])
  {
    TickKeepsInvariant(m, pending + chunks[0], nows[0]);
  }

  /** Before a frame is ready, the first step of `Run` is a reading tick. */
  lemma RunFirstReading(m: Machine, pending: seq<byte>, chunks: seq<seq<byte>>, nows: seq<u32>)
    requires Invariant(m) && |nows| == |chunks| && chunks != [] && m.state != ProcessingMessage
    ensures var t := ReadingTick(m, pending + chunks[0], nows[0]);
      Invariant(t.machine) && Run(m, pending, chunks, nows) == Run(t.machine, t.rest, chunks[1..], nows[1..])
  {
    ReadingTickIsTick(m, pending + chunks[0], nows[0]);
    RunFirst(m, pending, chunks, nows);
  }

  /** One step of `Undelivered` before the frame is ready: the ticks left after the first are those left by the others. */
  lemma UndeliveredFirst(m: Machine, pending: seq<byte>, chunks: seq<seq<byte>>, nows: seq<u32>)
    requires Invariant(m) && |nows| == |chunks| && chunks != [] && m.state != ProcessingMessage
    ensures var t := ReadingTick(m, pending + chunks[0], nows[0]);
      Invariant(t.machine)
      && Undelivered(m, pending, chunks, nows) == Undelivered(t.machine, t.rest, chunks[1..], nows[1..])
  {
    ReadingTickKeepsInvariant(m, pending + chunks[0], nows[0]);
  }

  /** `Run` and `Deliver` agree up to where `Deliver` stops. */
  predicate RunsAlike(m: Machine, pending: seq<byte>, chunks: seq<seq<byte>>, nows: seq<u32>)
    requires Invariant(m) && |nows| == |chunks|
  {
    var d := Deliver(m, pending, chunks, nows);
    var u := Undelivered(m, pending, chunks, nows);
    Invariant(d.machine) && (u != [] ==> d.machine.state == ProcessingMessage)
    && Run(m, pending, chunks, nows) == Run(d.machine, d.rest, u, nows[|chunks| - |u|..])
  }

  /**
   * Until a frame is ready, `loop()` runs the ticks `Deliver` runs; from there
   * it goes on, from where `Deliver` stopped, with the ticks `Deliver` left.
   */
  lemma {:induction false} RunAfterDeliver(m: Machine, pending: seq<byte>, chunks: seq<seq<byte>>, nows: seq<u32>)
    requires Invariant(m) && |nows| == |chunks|
    ensures RunsAlike(m, pending, chunks, nows)
    decreases |chunks|
  {
    if chunks == [] || m.state == ProcessingMessage {
      assert nows[0..] == nows;
    } else {
      var t := ReadingTick(m, pending + chunks[0], nows[0]);
      ReadingTickKeepsInvariant(m, pending + chunks[0], nows[0]);
      RunAfterDeliver(t.machine, t.rest, chunks[1..], nows[1..]);
      RunsAlikeStep(m, pending, chunks, nows);
    }
  }

  /** The reader, the pending bytes and the ticks `Deliver` stops with, from which `Run` goes on alike. */
  lemma RunFromDeliver(m: Machine, pending: seq<byte>, chunks: seq<seq<byte>>, nows: seq<u32>)
    returns (d: Step, u: seq<seq<byte>>, later: seq<u32>)
    requires Invariant(m) && |nows| == |chunks|
    ensures d == Deliver(m, pending, chunks, nows) && u == Undelivered(m, pending, chunks, nows)
    ensures Invariant(d.machine) && |later| == |u| && later == nows[|chunks| - |u|..]
    ensures Run(m, pending, chunks, nows) == Run(d.machine, d.rest, u, later)
  {
    RunAfterDeliver(m, pending, chunks, nows);
    d := Deliver(m, pending, chunks, nows);
    u := Undelivered(m, pending, chunks, nows);
    later := nows[|chunks| - |u|..];
  }

  /** Two equal runs end alike. */
  lemma ProcessedAlike(before: seq<i32>, frame: seq<byte>, a: Step, b: Step)
    requires a == b && ProcessedFrom(before, frame, b)
    ensures ProcessedFrom(before, frame, a)
  {
  }

  /** If `Run` and `Deliver` agree from the first tick on, they agree from the start. */
  lemma RunsAlikeStep(m: Machine, pending: seq<byte>, chunks: seq<seq<byte>>, nows: seq<u32>)
    requires Invariant(m) && |nows| == |chunks| && chunks != [] && m.state != ProcessingMessage
    requires var t := ReadingTick(m, pending + chunks[0], nows[0]);
      Invariant(t.machine) && RunsAlike(t.machine, t.rest, chunks[1..], nows[1..])
    ensures RunsAlike(m, pending, chunks, nows)
  {
    var t := ReadingTick(m, pending + chunks[0], nows[0]);
    var d := Deliver(t.machine, t.rest, chunks[1..], nows[1..]);
    var u := Undelivered(t.machine, t.rest, chunks[1..], nows[1..]);
    var later := nows[|chunks| - |u|..];
    assert nows[1..][|chunks| - 1 - |u|..] == later;
    assert Run(t.machine, t.rest, chunks[1..], nows[1..]) == Run(d.machine, d.rest, u, later);
    RunFirstReading(m, pending, chunks, nows);
    DeliverFirst(m, pending, chunks, nows);
    UndeliveredFirst(m, pending, chunks, nows);
    assert Run(m, pending, chunks, nows) == Run(d.machine, d.rest, u, later);
  }

  /** The ticks `Deliver` leaves after a frame is ready are followed by any ticks appended to the run. */
  lemma {:induction false} UndeliveredAppend(m: Machine, pending: seq<byte>, a: seq<seq<byte>>, b: seq<seq<byte>>, nows: seq<u32>)
    requires Invariant(m) && |nows| == |a| + |b|
    requires Deliver(m, pending, a, nows[..|a|]).machine.state == ProcessingMessage
    ensures Undelivered(m, pending, a + b, nows) == Undelivered(m, pending, a, nows[..|a|]) + b
    decreases |a|
  {
    if a != [] && m.state != ProcessingMessage {
      ReadingTickKeepsInvariant(m, pending + a[0], nows[0]);
      DeliverFirst(m, pending, a, nows[..|a|]);
      var t := ReadingTick(m, pending + a[0], nows[0]);
      assert (a + b)[0] == a[0] && (a + b)[1..] == a[1..] + b;
      assert nows[1..][..|a[1..]|] == nows[..|a|][1..];
      UndeliveredAppend(t.machine, t.rest, a[1..], b, nows[1..]);
    } else if a == [] {
      assert a + b == b;
    }
  }

  /** The bytes of two runs of ticks are the bytes of the first followed by those of the second. */
  lemma {:induction false} ConcatAppend(a: seq<seq<byte>>, b: seq<seq<byte>>)
    ensures Concat(a + b) == Concat(a) + Concat(b)
    decreases |a|
  {
    if a != [] {
      assert (a + b)[1..] == a[1..] + b;
      ConcatAppend(a[1..], b);
    } else {
      assert a + b == b;
    }
  }

  /** Idle ticks bring no byte. */
  lemma {:induction false} ConcatIdle(k: nat)
    ensures Concat(Idle(k)) == []
    decreases k
  {
    if k > 0 {
      IdleFirst(k);
      ConcatIdle(k - 1);
    }
  }

  /**
   * `after` are the registers that processing `frame` leaves in registers
   * `before`: unchanged when its checksum does not match, and otherwise each
   * register set from the metric it carries, if the frame holds that metric.
   */
  predicate PublishedFrom(before: seq<i32>, frame: seq<byte>, after: seq<i32>)
  {
    |before| == SLOT_COUNT && |after| == SLOT_COUNT && |frame| >= 2
    && (!ChecksumAccepted(frame) ==> after == before)
    && (ChecksumAccepted(frame) ==> forall j :: 0 <= j < SLOT_COUNT ==>
          after[j]
          == if j < |METRICS| && DecodeMetric(frame, METRICS[j].pattern).Some?
             then RegisterValue(DecodeMetric(frame, METRICS[j].pattern).value)
             else before[j])
  }

  /**
   * Run `r` ends with the reader waiting at cursor 0 for the next frame, every
   * byte consumed, and the registers published from `frame` over `before`.
   */
  predicate ProcessedFrom(before: seq<i32>, frame: seq<byte>, r: Step)
  {
    r.machine.state == WaitingForStart && r.machine.position == 0 && r.rest == []
    && PublishedFrom(before, frame, r.machine.slots)
  }

  /** Ticks that bring no byte leave a reader waiting at cursor 0 waiting there with its registers, whatever the clock does. */
  lemma {:induction false} WaitingStays(m: Machine, chunks: seq<seq<byte>>, nows: seq<u32>)
    requires Invariant(m) && m.state == WaitingForStart && m.position == 0
    requires |nows| == |chunks| && Concat(chunks) == []
    ensures var r := Run(m, [], chunks, nows);
      r.machine.state == WaitingForStart && r.machine.position == 0 && r.rest == [] && r.machine.slots == m.slots
    decreases |chunks|
  {
    if chunks != [] {
      assert |chunks[0] + Concat(chunks[1..])| == 0;
      assert [] + chunks[0] == [];
      IdleTick(m, nows[0]);
      var t := Tick(m, [], nows[0]);
      WaitingStays(t.machine, chunks[1..], nows[1..]);
    }
  }

  /**
   * A ready frame followed by ticks that bring no byte, the first of them on
   * time: the first processes the frame, and the reader then waits for the
   * next frame with the registers the frame set.
   */
  lemma ReadyRun(m: Machine, frame: seq<byte>, pending: seq<byte>, chunks: seq<seq<byte>>, nows: seq<u32>)
    requires Invariant(m) && m.state == ProcessingMessage && m.position == |frame| <= |m.buffer| && m.buffer[..|frame|] == frame
    requires pending == [] && chunks != [] && Concat(chunks) == [] && |nows| == |chunks|
    requires ElapsedU32(nows[0], m.lastStateReset) <= READ_TIMEOUT * 1000
    ensures ProcessedFrom(m.slots, frame, Run(m, pending, chunks, nows))
  {
    assert |chunks[0] + Concat(chunks[1..])| == 0;
    assert pending + chunks[0] == [];
    ReadyFrameProcessed(m, frame, nows[0]);
    var p := Tick(m, [], nows[0]);
    WaitingStays(p.machine, chunks[1..], nows[1..]);
  }

  /** Reader `r` holds exactly `frame`, ready for processing, with the clock and the registers of `m`. */
  predicate Ready(m: Machine, frame: seq<byte>, r: Machine)
  {
    Invariant(r) && r.state == ProcessingMessage && r.position == |frame| <= |r.buffer| && r.buffer[..|frame|] == frame
    && r.lastStateReset == m.lastStateReset && r.slots == m.slots
  }

  /**
   * With three idle ticks after the frame's chunks, the frame is ready before
   * the last of them, which `Deliver` therefore leaves to later.
   */
  lemma ReadyBeforeLastIdle(m: Machine, frame: seq<byte>, chunks: seq<seq<byte>>, nows: seq<u32>)
    requires WellFramed(frame) && Invariant(m) && m.state == WaitingForStart && m.position == 0
    requires Concat(chunks) == frame && |nows| == |chunks| + 3 && OnTime(m.lastStateReset, nows)
    ensures var d := Deliver(m, [], chunks + Idle(3), nows);
      Ready(m, frame, d.machine) && d.rest == [] && Undelivered(m, [], chunks + Idle(3), nows) != []
  {
    var a := chunks + Idle(2);
    assert Idle(3) == Idle(2) + Idle(1);
    assert chunks + Idle(3) == a + Idle(1);
    OnTimeCut(m.lastStateReset, nows, |a|);
    FrameReachesProcessing(m, frame, chunks, nows[..|a|]);
    DeliverAppend(m, [], a, Idle(1), nows);
    UndeliveredAppend(m, [], a, Idle(1), nows);
  }

  /** The ticks `Deliver` leaves after the frame's chunks and three idle ticks bring no byte. */
  lemma LeftoverIdle(m: Machine, frame: seq<byte>, chunks: seq<seq<byte>>, nows: seq<u32>)
    requires WellFramed(frame) && Invariant(m) && m.state == WaitingForStart && m.position == 0
    requires Concat(chunks) == frame && |nows| == |chunks| + 3 && OnTime(m.lastStateReset, nows)
    ensures Concat(Undelivered(m, [], chunks + Idle(3), nows)) == []
  {
    ConcatAppend(chunks, Idle(3));
    ConcatIdle(3);
    assert [] + Concat(chunks + Idle(3)) == frame[0..];
    DeliverTakesAll(m, frame, 0, [], chunks + Idle(3), nows);
  }

  /**
   * Where `Deliver` stops on the frame's chunks and three idle ticks: at a
   * reader holding exactly the frame, leaving ticks that bring no byte, the
   * first of them on time.
   */
  lemma DeliverStopsReady(m: Machine, frame: seq<byte>, chunks: seq<seq<byte>>, nows: seq<u32>)
    requires WellFramed(frame) && Invariant(m) && m.state == WaitingForStart && m.position == 0
    requires Concat(chunks) == frame && |nows| == |chunks| + 3 && OnTime(m.lastStateReset, nows)
    ensures var cs := chunks + Idle(3);
      var d := Deliver(m, [], cs, nows);
      var u := Undelivered(m, [], cs, nows);
      Ready(m, frame, d.machine) && d.rest == [] && u != [] && Concat(u) == []
      && ElapsedU32(nows[|cs| - |u|], d.machine.lastStateReset) <= READ_TIMEOUT * 1000
  {
    ReadyBeforeLastIdle(m, frame, chunks, nows);
    LeftoverIdle(m, frame, chunks, nows);
  }

  /**
   * End to end: a well-formed frame, split into chunks in any way and fed from
   * the start state on ticks that come on time, followed by three ticks without
   * new bytes, has been processed by `loop()` once they are over: the reader
   * waits for the next frame with nothing left unread, and the registers were
   * set from the frame's metrics exactly when its checksum matches.
   */
  lemma FrameIsProcessed(m: Machine, frame: seq<byte>, chunks: seq<seq<byte>>, nows: seq<u32>)
    requires WellFramed(frame) && Invariant(m) && m.state == WaitingForStart && m.position == 0
    requires Concat(chunks) == frame && |nows| == |chunks| + 3 && OnTime(m.lastStateReset, nows)
    ensures ProcessedFrom(m.slots, frame, Run(m, [], chunks + Idle(3), nows))
  {
    var cs := chunks + Idle(3);
    var d, u, later := RunFromDeliver(m, [], cs, nows);
    DeliverStopsReady(m, frame, chunks, nows);
    ReadyRun(d.machine, frame, d.rest, u, later);
    ProcessedAlike(m.slots, frame, Run(m, [], cs, nows), Run(d.machine, d.rest, u, later));
  }

}
