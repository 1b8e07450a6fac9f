/**
 * CRC-16/X-25, the 16-bit frame check sequence of RFC 1662 (Appendix C.2):
 * reflected polynomial 0x8408, initial value 0xFFFF, final complement.
 * The reader calls a library for it; this module gives the bitwise definition
 * it is specified by, and the facts the frame acceptance rule relies on.
 */
module Crc16 {
  import opened Bytes

  const INIT_FCS: bv16 := 0xFFFF
  const GOOD_FCS: bv16 := 0xF0B8
  const REFLECTED_POLY: bv16 := 0x8408

  /** One round of the reflected shift register. */
  function Step(fcs: bv16): bv16
  {
    if fcs & 1 == 1 then (fcs >> 1) ^ REFLECTED_POLY else fcs >> 1
  }

  /** `n` rounds of the reflected shift register. */
  function Shift(fcs: bv16, n: nat): bv16
    decreases n
  {
    if n == 0 then fcs else Shift(Step(fcs), n - 1)
  }

  function Step8(f: bv16): bv16
  {
    Step(Step(Step(Step(Step(Step(Step(Step(f))))))))
  }

  lemma ShiftEight(f: bv16)
    ensures Shift(f, 8) == Step8(f)
  {
    var f1 := Step(f);
    var f2 := Step(f1);
    var f3 := Step(f2);
    var f4 := Step(f3);
    var f5 := Step(f4);
    var f6 := Step(f5);
    var f7 := Step(f6);
    assert Shift(f7, 1) == Step(f7);
    assert Shift(f6, 2) == Shift(f7, 1);
    assert Shift(f5, 3) == Shift(f6, 2);
    assert Shift(f4, 4) == Shift(f5, 3);
    assert Shift(f3, 5) == Shift(f4, 4);
    assert Shift(f2, 6) == Shift(f3, 5);
    assert Shift(f1, 7) == Shift(f2, 6);
  }

  /** One octet folded into the running FCS (least significant bit first). */
  function Update(fcs: bv16, b: byte): bv16
  {
    Shift(fcs ^ Widen(b), 8)
  }

  /** The running FCS after all of `data`, starting from `fcs`. */
  function Fcs(fcs: bv16, data: seq<byte>): bv16
    decreases |data|
  {
    if data == [] then fcs else Fcs(Update(fcs, data[0]), data[1..])
  }

  /** The CRC-16/X-25 value of `data`, as the `x25` library call returns it. */
  function X25(data: seq<byte>): bv16
  {
    Fcs(INIT_FCS, data) ^ 0xFFFF
  }

  /**
   * The `x25` call over the first `length` bytes of a buffer, one octet at a
   * time from the initial register, complemented at the end.
   */
  method X25Of(buffer: array<byte>, length: nat) returns (crc: bv16)
    requires length <= buffer.Length
    ensures crc == X25(buffer[..length])
  {
    var fcs := INIT_FCS;
    var i := 0;
    assert buffer[i..length] == buffer[..length];
    while i < length
      invariant 0 <= i <= length
      invariant Fcs(fcs, buffer[i..length]) == Fcs(INIT_FCS, buffer[..length])
    {
      assert buffer[i..length][1..] == buffer[i + 1..length];
      fcs := Update(fcs, buffer[i]);
      i := i + 1;
    }
    crc := fcs ^ 0xFFFF;
  }

  /** A byte widened to 16 bits. */
  function Widen(b: byte): bv16
  {
    (b as int) as bv16
  }

  /** The FCS is computed incrementally: splitting the data changes nothing. */
  lemma {:induction false} FcsAppend(fcs: bv16, a: seq<byte>, b: seq<byte>)
    ensures Fcs(fcs, a + b) == Fcs(Fcs(fcs, a), b)
    decreases |a|
  {
    if a == [] {
      assert a + b == b;
    } else {
      assert (a + b)[0] == a[0];
      assert (a + b)[1..] == a[1..] + b;
      FcsAppend(Update(fcs, a[0]), a[1..], b);
    }
  }

  lemma UpdateTwice(x: bv16, lo: byte, hi: byte)
    ensures Update(Update(x, lo), hi) == Step8(Step8(x ^ Widen(lo)) ^ Widen(hi))
  {
    UpdateUnrolled(x, lo);
    UpdateUnrolled(Update(x, lo), hi);
  }

  lemma UpdateUnrolled(x: bv16, b: byte)
    ensures Update(x, b) == Step8(x ^ Widen(b))
  {
    ShiftEight(x ^ Widen(b));
  }

  lemma ByteBelow(b: byte)
    ensures Widen(b) < 0x100
  {
  }

  /**
   * The acceptance rule of the frame reader: the CRC of everything but the last
   * two bytes equals those two bytes read little-endian (high byte last).
   */
  predicate ChecksumAccepted(frame: seq<byte>)
    requires |frame| >= 2
  {
    X25(frame[..|frame| - 2]) == (Widen(frame[|frame| - 1]) << 8) | Widen(frame[|frame| - 2])
  }

  /**
   * The reader's rule is the receiver check of RFC 1662: a frame is accepted
   * exactly when running the FCS over all of it, trailer included, ends at 0xF0B8.
   */
  lemma AcceptedIffGoodFcs(frame: seq<byte>)
    requires |frame| >= 2
    ensures ChecksumAccepted(frame) <==> Fcs(INIT_FCS, frame) == GOOD_FCS
  {
    var n := |frame|;
    var x, lo, hi := Fcs(INIT_FCS, frame[..n - 2]), frame[n - 2], frame[n - 1];
    var whole, trailer := Fcs(INIT_FCS, frame), (Widen(hi) << 8) | Widen(lo);
    TrailerFold(frame);
    assert whole == Update(Update(x, lo), hi);
    ComplementMatches(x, lo, hi);
    assert x ^ 0xFFFF == trailer <==> whole == GOOD_FCS;
    AcceptedUnfolded(frame, x, trailer);
  }

  /** The acceptance rule, with the CRC written as the complemented running FCS. */
  lemma AcceptedUnfolded(frame: seq<byte>, x: bv16, trailer: bv16)
    requires |frame| >= 2
    requires x == Fcs(INIT_FCS, frame[..|frame| - 2])
    requires trailer == (Widen(frame[|frame| - 1]) << 8) | Widen(frame[|frame| - 2])
    ensures ChecksumAccepted(frame) == (x ^ 0xFFFF == trailer)
  {
  }

  /** The acceptance rule, given the CRC of the data and the trailer read little-endian. */
  lemma AcceptedByParts(frame: seq<byte>, crc: bv16, trailer: bv16)
    requires |frame| >= 2
    requires crc == X25(frame[..|frame| - 2])
    requires trailer == (Widen(frame[|frame| - 1]) << 8) | Widen(frame[|frame| - 2])
    ensures ChecksumAccepted(frame) == (crc == trailer)
  {
  }

  /** Running the FCS over a whole frame is running it over the data, then the two trailer bytes. */
  lemma TrailerFold(frame: seq<byte>)
    requires |frame| >= 2
    ensures Fcs(INIT_FCS, frame) == Update(Update(Fcs(INIT_FCS, frame[..|frame| - 2]), frame[|frame| - 2]), frame[|frame| - 1])
  {
    var n := |frame|;
    var data := frame[..n - 2];
    var lo, hi := frame[n - 2], frame[n - 1];
    assert frame == data + [lo, hi];
    FcsAppend(INIT_FCS, data, [lo, hi]);
    var x := Fcs(INIT_FCS, data);
    assert [lo, hi][1..] == [hi];
    assert Fcs(x, [lo, hi]) == Fcs(Update(x, lo), [hi]);
    assert [hi][1..] == [];
    assert Fcs(Update(x, lo), [hi]) == Fcs(Update(Update(x, lo), hi), []);
  }

  /** The complemented register equals a little-endian pair exactly when that pair drives the register to 0xF0B8. */
  lemma ComplementMatches(x: bv16, lo: byte, hi: byte)
    ensures x ^ 0xFFFF == (Widen(hi) << 8) | Widen(lo) <==> Update(Update(x, lo), hi) == GOOD_FCS
  {
    ByteBelow(lo);
    ByteBelow(hi);
    UpdateTwice(x, lo, hi);
    ComplementBits(x, Widen(lo), Widen(hi));
  }

  lemma ComplementBits(x: bv16, l: bv16, h: bv16)
    requires l < 0x100 && h < 0x100
    ensures x ^ 0xFFFF == (h << 8) | l <==> Step8(Step8(x ^ l) ^ h) == GOOD_FCS
  {
  }

  lemma LittleEndianSplit(v: bv16, lo: byte, hi: byte)
    ensures v == (Widen(hi) << 8) | Widen(lo) <==> Widen(lo) == v & 0xFF && Widen(hi) == v >> 8
  {
    ByteBelow(lo);
    ByteBelow(hi);
    LittleEndianBits(v, Widen(lo), Widen(hi));
  }

  lemma LittleEndianBits(v: bv16, l: bv16, h: bv16)
    requires l < 0x100 && h < 0x100
    ensures v == (h << 8) | l <==> l == v & 0xFF && h == v >> 8
  {
  }

  /**
   * Exactly one trailer completes a given body: the body's CRC, low byte first.
   * Any other pair of trailer bytes, a corrupted one included, is rejected.
   */
  lemma TrailerUnique(body: seq<byte>, lo: byte, hi: byte)
    ensures ChecksumAccepted(body + [lo, hi])
        <==> Widen(lo) == X25(body) & 0xFF && Widen(hi) == X25(body) >> 8
  {
    AcceptedAppended(body, lo, hi);
    LittleEndianSplit(X25(body), lo, hi);
  }

  /** The acceptance rule for a frame given as its body and its two trailer bytes. */
  lemma AcceptedAppended(body: seq<byte>, lo: byte, hi: byte)
    ensures ChecksumAccepted(body + [lo, hi]) == (X25(body) == (Widen(hi) << 8) | Widen(lo))
  {
    var frame := body + [lo, hi];
    assert frame[..|frame| - 2] == body;
    assert frame[|frame| - 2] == lo && frame[|frame| - 1] == hi;
  }

  /** The nine ASCII digits "123456789". */
  const CHECK_INPUT: seq<byte> := [0x31, 0x32, 0x33, 0x34, 0x35, 0x36, 0x37, 0x38, 0x39]

  /** The reference check value of CRC-16/X-25: the nine ASCII digits "123456789" give 0x906E. */
  lemma CheckValue()
    ensures X25(CHECK_INPUT) == 0x906E
  {
    UpdateUnrolled(INIT_FCS, 0x31);
    assert Update(INIT_FCS, 0x31) == 0x2F8D;
    UpdateUnrolled(0x2F8D, 0x32);
    assert Update(0x2F8D, 0x32) == 0x4D53;
    UpdateUnrolled(0x4D53, 0x33);
    assert Update(0x4D53, 0x33) == 0x634B;
    UpdateUnrolled(0x634B, 0x34);
    assert Update(0x634B, 0x34) == 0x8B13;
    UpdateUnrolled(0x8B13, 0x35);
    assert Update(0x8B13, 0x35) == 0x44BF;
    UpdateUnrolled(0x44BF, 0x36);
    assert Update(0x44BF, 0x36) == 0x198D;
    UpdateUnrolled(0x198D, 0x37);
    assert Update(0x198D, 0x37) == 0x1AC8;
    UpdateUnrolled(0x1AC8, 0x38);
    assert Update(0x1AC8, 0x38) == 0xF795;
    UpdateUnrolled(0xF795, 0x39);
    assert Update(0xF795, 0x39) == 0x6F91;
    var s := CHECK_INPUT;
    assert Fcs(0x6F91, s[9..]) == 0x6F91;
    assert Fcs(0xF795, s[8..]) == Fcs(0x6F91, s[9..]);
    assert Fcs(0x1AC8, s[7..]) == Fcs(0xF795, s[8..]);
    assert Fcs(0x198D, s[6..]) == Fcs(0x1AC8, s[7..]);
    assert Fcs(0x44BF, s[5..]) == Fcs(0x198D, s[6..]);
    assert Fcs(0x8B13, s[4..]) == Fcs(0x44BF, s[5..]);
    assert Fcs(0x634B, s[3..]) == Fcs(0x8B13, s[4..]);
    assert Fcs(0x4D53, s[2..]) == Fcs(0x634B, s[3..]);
    assert Fcs(0x2F8D, s[1..]) == Fcs(0x4D53, s[2..]);
    assert Fcs(INIT_FCS, s) == Fcs(0x2F8D, s[1..]);
  }
}
