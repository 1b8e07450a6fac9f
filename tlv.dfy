/**
 * The metric decoder of the SML reader: locating an OBIS pattern in a frame and
 * walking the five TLV fields of the list entry that follows it (status, time,
 * unit, scaler, value).
 *
 * Each field starts with a tag/length byte whose low nibble is the length of the
 * whole field, tag byte included. The decoder only handles that short form;
 * multi-byte lengths (bit 0x80) are not part of this model.
 *
 * The reader walks a raw pointer without bounds checks. Here every read is
 * checked against the frame length, and a read past it makes the metric absent
 * (`None`), as does a value tag of length 0 (the reader's `while (--nlen)` would
 * run 255 times for it).
 */
module Tlv {
  import opened Wrappers
  import opened Bytes

  /** One decoded metric: the raw value (`int64_t`), its unit code and its decimal exponent (`int8_t`). */
  datatype MetricValue = MetricValue(value: int, unit: byte, scaler: int)

  /** A configured metric: its name and the OBIS byte pattern that identifies it in a frame. */
  datatype Metric = Metric(name: string, pattern: seq<byte>)

  const POWER_IN: seq<byte> := [0x77, 0x07, 0x01, 0x00, 0x01, 0x08, 0x00, 0xFF]
  const POWER_OUT: seq<byte> := [0x77, 0x07, 0x01, 0x00, 0x02, 0x08, 0x00, 0xFF]
  const POWER_CURRENT: seq<byte> := [0x77, 0x07, 0x01, 0x00, 0x10, 0x07, 0x00, 0xFF]

  /** The metrics the reader looks for, in publishing order. */
  const METRICS: seq<Metric> := [
    Metric("power_in", POWER_IN),
    Metric("power_out", POWER_OUT),
    Metric("power_current", POWER_CURRENT)
  ]

  /** `frame` holds the bytes of `x` from index `at` on: `x` occurs in `frame` at `at`. */
  predicate HoldsAt(frame: seq<byte>, at: nat, x: seq<byte>)
  {
    at + |x| <= |frame| && forall k :: 0 <= k < |x| ==> frame[at + k] == x[k]
  }

  /** `k` is the first index where `pattern` occurs in `s`. */
  predicate FirstHeldAt(s: seq<byte>, pattern: seq<byte>, k: nat)
  {
    HoldsAt(s, k, pattern) && forall j: nat :: j < k ==> !HoldsAt(s, j, pattern)
  }

  /** The first index at or after `k` where `pattern` occurs in `s`, if any. */
  function FirstOccurrenceFrom(s: seq<byte>, pattern: seq<byte>, k: nat): (r: Option<nat>)
    ensures r.Some? ==> k <= r.value && HoldsAt(s, r.value, pattern)
    ensures r.Some? ==> forall j: nat :: k <= j < r.value ==> !HoldsAt(s, j, pattern)
    ensures r.None? ==> forall j: nat :: k <= j ==> !HoldsAt(s, j, pattern)
    decreases |s| - k
  {
    if k + |pattern| > |s| then None
    else if HoldsAt(s, k, pattern) then Some(k)
    else FirstOccurrenceFrom(s, pattern, k + 1)
  }

  /** The first index where `pattern` occurs in `s` (what `memmem` returns), if any. */
  function FirstOccurrence(s: seq<byte>, pattern: seq<byte>): (r: Option<nat>)
    ensures r.Some? ==> FirstHeldAt(s, pattern, r.value)
    ensures r.None? ==> forall j: nat :: !HoldsAt(s, j, pattern)
  {
    FirstOccurrenceFrom(s, pattern, 0)
  }

  /**
   * The uint64 accumulator of the value field after shifting in the bytes of
   * `s`, most significant first: `uvalue <<= 8; uvalue |= b` per byte.
   */
  function Accumulate(s: seq<byte>): (r: nat)
    ensures r < TWO_64
    decreases |s|
  {
    if s == [] then 0 else (Accumulate(s[..|s| - 1]) * 256) % TWO_64 + s[|s| - 1] as nat
  }

  /** The exact big-endian number formed by the bytes of `s`. */
  function BigEndian(s: seq<byte>): nat
    decreases |s|
  {
    if s == [] then 0 else BigEndian(s[..|s| - 1]) * 256 + s[|s| - 1] as nat
  }

  /** 256 to the power `n`. */
  function Pow256(n: nat): (r: nat)
    ensures r >= 1
  {
    if n == 0 then 1 else 256 * Pow256(n - 1)
  }

  /**
   * The accumulator holds the big-endian number modulo 2^64: the high bytes of a
   * payload longer than eight bytes are shifted out.
   */
  lemma {:induction false} AccumulateIsBigEndian(s: seq<byte>)
    ensures Accumulate(s) == BigEndian(s) % TWO_64
    decreases |s|
  {
    if s != [] {
      AccumulateIsBigEndian(s[..|s| - 1]);
      ShiftInByte(BigEndian(s[..|s| - 1]), s[|s| - 1] as nat);
    }
  }

  /** Shifting a byte into a 64-bit register agrees with shifting it into the exact number. */
  lemma ShiftInByte(q: nat, b: nat)
    requires b < 256
    ensures ((q % TWO_64) * 256) % TWO_64 + b == (q * 256 + b) % TWO_64
  {
    var p := 0x100_0000_0000_0000;
    assert TWO_64 == 256 * p;
    var t, u := q % p, q / p;
    var v, w := u % 256, u / 256;
    assert q == w * TWO_64 + (v * p + t) by {
      assert q == u * p + t;
      assert u * p == w * TWO_64 + v * p;
    }
    RemainderAfterMultiple(w, v * p + t, TWO_64);
    assert (q % TWO_64) * 256 == v * TWO_64 + t * 256;
    RemainderAfterMultiple(v, t * 256, TWO_64);
    assert q * 256 + b == u * TWO_64 + (t * 256 + b);
    RemainderAfterMultiple(u, t * 256 + b, TWO_64);
  }

  /** The remainder of `k * m + r` by `m` is `r` when `r` is below `m`. */
  lemma RemainderAfterMultiple(k: nat, r: nat, m: nat)
    requires r < m
    ensures (k * m + r) % m == r
  {
    DivisionUnique(k * m + r, m, k, r);
  }

  /** A big-endian number of `n` bytes is below 256^n. */
  lemma {:induction false} BigEndianBound(s: seq<byte>)
    ensures BigEndian(s) < Pow256(|s|)
    decreases |s|
  {
    if s != [] {
      BigEndianBound(s[..|s| - 1]);
    }
  }

  /** Payloads of at most eight bytes are accumulated without loss. */
  lemma ShortPayloadExact(s: seq<byte>)
    requires |s| <= 8
    ensures Accumulate(s) == BigEndian(s)
  {
    AccumulateIsBigEndian(s);
    BigEndianBound(s);
    Pow256Monotone(|s|, 8);
  }

  lemma {:induction false} Pow256Monotone(m: nat, n: nat)
    requires m <= n
    ensures Pow256(m) <= Pow256(n)
    decreases n
  {
    if m < n {
      Pow256Monotone(m, n - 1);
    }
  }

  /**
   * The metric list entry whose status field starts at `start` in `frame`: skip
   * status and time by their lengths, take the byte after the unit tag as the
   * unit and the byte after the scaler tag as an `int8_t` scaler, then read the
   * `len - 1` payload bytes of the value field big-endian into a uint64 and
   * reinterpret that bit pattern as `int64_t` whatever the type bits say.
   */
  function DecodeFields(frame: seq<byte>, start: nat): (r: Option<MetricValue>)
    ensures r.Some? ==> -0x80 <= r.value.scaler < 0x80 && -TWO_63 <= r.value.value < TWO_63
  {
    if start >= |frame| then None
    else
      var timeAt := start + LowNibble(frame[start]);
      if timeAt >= |frame| then None
      else
        var unitAt := timeAt + LowNibble(frame[timeAt]);
        if unitAt + 1 >= |frame| then None
        else
          var scalerAt := unitAt + LowNibble(frame[unitAt]);
          if scalerAt + 1 >= |frame| then None
          else
            DecodeValue(frame, scalerAt + LowNibble(frame[scalerAt]), frame[unitAt + 1], Int8(frame[scalerAt + 1]))
  }

  /**
   * The value field at `valueAt`: its `len - 1` payload bytes read big-endian
   * into a uint64 and reinterpreted as `int64_t`, with the unit and scaler
   * already read.
   */
  function DecodeValue(frame: seq<byte>, valueAt: nat, unit: byte, scaler: int): (r: Option<MetricValue>)
    ensures r.Some? ==> r.value.unit == unit && r.value.scaler == scaler && -TWO_63 <= r.value.value < TWO_63
  {
    if valueAt >= |frame| then None
    else
      var len := LowNibble(frame[valueAt]);
      if len == 0 || valueAt + len > |frame| then None
      else Some(MetricValue(Int64(Accumulate(frame[valueAt + 1 .. valueAt + len])), unit, scaler))
  }

  /** The metric identified by `pattern` in `frame`: decoded after the pattern's first occurrence. */
  function DecodeMetric(frame: seq<byte>, pattern: seq<byte>): (r: Option<MetricValue>)
    ensures (forall k: nat :: !HoldsAt(frame, k, pattern)) ==> r.None?
    ensures forall k: nat :: FirstHeldAt(frame, pattern, k) ==> r == DecodeFields(frame, k + |pattern|)
    ensures r.Some? ==> exists k: nat :: FirstHeldAt(frame, pattern, k) && r == DecodeFields(frame, k + |pattern|)
  {
    match FirstOccurrence(frame, pattern)
    case None => None
    case Some(k) =>
      assert FirstHeldAt(frame, pattern, k);
      DecodeFields(frame, k + |pattern|)
  }

  /**
   * The naive scan `memmem` performs over `buffer[0..length)`: the first index
   * where the whole pattern matches.
   */
  method FindPattern(buffer: array<byte>, length: nat, pattern: seq<byte>) returns (found: Option<nat>)
    requires length <= buffer.Length
    ensures found == FirstOccurrence(buffer[..length], pattern)
  {
    ghost var s := buffer[..length];
    var k := 0;
    while k + |pattern| <= length
      invariant FirstOccurrenceFrom(s, pattern, k) == FirstOccurrence(s, pattern)
    {
      var matches := MatchesAt(buffer, length, pattern, k);
      if matches {
        return Some(k);
      }
      k := k + 1;
    }
    return None;
  }

  /** The inner comparison of the scan: whether `pattern` matches `buffer[0..length)` at index `k`. */
  method MatchesAt(buffer: array<byte>, length: nat, pattern: seq<byte>, k: nat) returns (matches: bool)
    requires k + |pattern| <= length <= buffer.Length
    ensures matches == HoldsAt(buffer[..length], k, pattern)
  {
    ghost var s := buffer[..length];
    var j := 0;
    while j < |pattern| && buffer[k + j] == pattern[j]
      invariant j <= |pattern|
      invariant forall i :: 0 <= i < j ==> s[k + i] == pattern[i]
    {
      j := j + 1;
    }
    return j == |pattern|;
  }

  /**
   * The `while (--nlen)` loop of the decoder: shift the bytes of
   * `buffer[from..to)` into a uint64 accumulator, most significant first.
   */
  method AccumulatePayload(buffer: array<byte>, from: nat, to: nat) returns (uvalue: nat)
    requires from <= to <= buffer.Length
    ensures uvalue == Accumulate(buffer[from..to])
  {
    uvalue := 0;
    var cp := from;
    var nlen := to - from;
    while nlen > 0
      invariant from <= cp && 0 <= nlen && cp + nlen == to
      invariant uvalue == Accumulate(buffer[from..cp])
    {
      assert buffer[from..cp + 1][..cp - from] == buffer[from..cp];
      uvalue := (uvalue * 256) % TWO_64 + buffer[cp] as nat;
      cp := cp + 1;
      nlen := nlen - 1;
    }
  }

  /**
   * The pointer walk of the decoder, with the cursor `cp` as an index into
   * `buffer[0..length)` and every read bounds-checked.
   */
  method DecodeFieldsAt(buffer: array<byte>, length: nat, start: nat) returns (r: Option<MetricValue>)
    requires length <= buffer.Length
    ensures r == DecodeFields(buffer[..length], start)
  {
    var cp := start;
    // Ignore the status field.
    if cp >= length { return None; }
    cp := cp + LowNibble(buffer[cp]);
    // Ignore the time field.
    if cp >= length { return None; }
    cp := cp + LowNibble(buffer[cp]);
    // Save the unit.
    if cp + 1 >= length { return None; }
    var unit := buffer[cp + 1];
    cp := cp + LowNibble(buffer[cp]);
    // Save the scaler.
    if cp + 1 >= length { return None; }
    var scaler := Int8(buffer[cp + 1]);
    cp := cp + LowNibble(buffer[cp]);
    r := ReadValue(buffer, length, cp, unit, scaler);
  }

  /** The value part of the pointer walk: the length check and the payload loop. */
  method ReadValue(buffer: array<byte>, length: nat, cp: nat, unit: byte, scaler: int) returns (r: Option<MetricValue>)
    requires length <= buffer.Length
    ensures r == DecodeValue(buffer[..length], cp, unit, scaler)
  {
    if cp >= length { return None; }
    var len := LowNibble(buffer[cp]);
    if len == 0 || cp + len > length { return None; }
    var uvalue := AccumulatePayload(buffer, cp + 1, cp + len);
    SliceOfPrefix(buffer[..], length, cp + 1, cp + len);
    r := Some(MetricValue(Int64(uvalue), unit, scaler));
  }

  /** A slice of a prefix is the same slice of the whole. */
  lemma SliceOfPrefix(a: seq<byte>, n: nat, i: nat, j: nat)
    requires i <= j <= n <= |a|
    ensures a[..n][i..j] == a[i..j]
  {
  }

  /**
   * The type bits of the value tag do not matter: both branches of the
   * `type == 0x50` choice store the same `int64_t`, so value tags with the same
   * length decode alike.
   */
  lemma TypeIgnored(frame: seq<byte>, valueAt: nat, tag: byte, unit: byte, scaler: int)
    requires valueAt < |frame| && LowNibble(tag) == LowNibble(frame[valueAt])
    ensures DecodeValue(frame[valueAt := tag], valueAt, unit, scaler) == DecodeValue(frame, valueAt, unit, scaler)
  {
    var len := LowNibble(tag);
    if len != 0 && valueAt + len <= |frame| {
      assert frame[valueAt := tag][valueAt + 1..valueAt + len] == frame[valueAt + 1..valueAt + len];
    }
  }

  /** `DecodeMetric` as the reader runs it: `memmem`, then the pointer walk after the match. */
  method DecodeMetricAt(buffer: array<byte>, length: nat, pattern: seq<byte>) returns (r: Option<MetricValue>)
    requires length <= buffer.Length
    ensures r == DecodeMetric(buffer[..length], pattern)
  {
    var found := FindPattern(buffer, length, pattern);
    match found {
      case None => r := None;
      case Some(k) => r := DecodeFieldsAt(buffer, length, k + |pattern|);
    }
  }

  /** One TLV field as a meter writes it: the type bits of its tag and its payload. */
  datatype Field = Field(kind: byte, payload: seq<byte>)

  /** A field with the short length form: type bits only in 0x70, total length below 16. */
  predicate FieldWellFormed(f: Field)
  {
    f.kind as int % 16 == 0 && f.kind < 0x80 && |f.payload| < 15
  }

  /** The bytes of a field: its tag (type bits plus total length) followed by its payload. */
  function EncodeField(f: Field): (r: seq<byte>)
    requires FieldWellFormed(f)
    ensures |r| == |f.payload| + 1 && LowNibble(r[0]) == |r| && r[1..] == f.payload
  {
    [(f.kind as int + |f.payload| + 1) as byte] + f.payload
  }

  /** The five fields after an OBIS pattern in an SML list entry. */
  datatype Entry = Entry(status: Field, time: Field, unit: Field, scaler: Field, value: Field)

  /** Every field well formed, and the unit and scaler fields carry at least one payload byte. */
  predicate EntryWellFormed(e: Entry)
  {
    FieldWellFormed(e.status) && FieldWellFormed(e.time) && FieldWellFormed(e.unit)
    && FieldWellFormed(e.scaler) && FieldWellFormed(e.value)
    && |e.unit.payload| >= 1 && |e.scaler.payload| >= 1
  }

  /** The bytes of an entry: its status, time, unit and scaler fields, followed by `last`. */
  function EncodeEntryWith(e: Entry, last: seq<byte>): seq<byte>
    requires EntryWellFormed(e)
  {
    EncodeField(e.status) + (EncodeField(e.time) + (EncodeField(e.unit) + (EncodeField(e.scaler) + last)))
  }

  /** The bytes of a well-formed entry, its five fields one after the other. */
  function EncodeEntry(e: Entry): seq<byte>
    requires EntryWellFormed(e)
  {
    EncodeEntryWith(e, EncodeField(e.value))
  }

  /** What decoding a well-formed entry yields: the first unit and scaler payload bytes and the value payload. */
  function Expected(e: Entry): MetricValue
    requires EntryWellFormed(e)
  {
    MetricValue(Int64(Accumulate(e.value.payload)), e.unit.payload[0], Int8(e.scaler.payload[0]))
  }

  /** The tag at `at` gives the total length of `f`, and the first payload byte of `f`, if any, follows it. */
  predicate TagAt(frame: seq<byte>, at: nat, f: Field)
  {
    at + |f.payload| + 1 <= |frame| && LowNibble(frame[at]) == |f.payload| + 1
    && (|f.payload| > 0 ==> frame[at + 1] == f.payload[0])
  }


  /**
   * Round trip: wherever a well-formed entry is written in a frame, decoding from
   * its first byte recovers its unit, its scaler and its value payload.
   */
  lemma DecodeEncoded(frame: seq<byte>, start: nat, e: Entry)
    requires EntryWellFormed(e) && HoldsAt(frame, start, EncodeEntry(e))
    ensures DecodeFields(frame, start) == Some(Expected(e))
  {
    var timeAt := start + |e.status.payload| + 1;
    var unitAt := timeAt + |e.time.payload| + 1;
    var scalerAt := unitAt + |e.unit.payload| + 1;
    var valueAt := scalerAt + |e.scaler.payload| + 1;
    EntryLaidOut(frame, start, e);
    DecodeLaidOut(frame, e, start, timeAt, unitAt, scalerAt, valueAt);
  }

  /** Where an entry is held, its five tags lie where the decoder looks and the value payload follows the last one. */
  lemma EntryLaidOut(frame: seq<byte>, start: nat, e: Entry)
    requires EntryWellFormed(e) && HoldsAt(frame, start, EncodeEntry(e))
    ensures TagAt(frame, start, e.status)
    ensures TagAt(frame, start + |e.status.payload| + 1, e.time)
    ensures TagAt(frame, start + |e.status.payload| + 1 + |e.time.payload| + 1, e.unit)
    ensures TagAt(frame, start + |e.status.payload| + 1 + |e.time.payload| + 1 + |e.unit.payload| + 1, e.scaler)
    ensures var valueAt := start + |e.status.payload| + 1 + |e.time.payload| + 1 + |e.unit.payload| + 1 + |e.scaler.payload| + 1;
      TagAt(frame, valueAt, e.value) && frame[valueAt + 1..valueAt + 1 + |e.value.payload|] == e.value.payload
  {
    LeadingFieldsAt(frame, start, e, EncodeField(e.value));
    var valueAt := start + |e.status.payload| + 1 + |e.time.payload| + 1 + |e.unit.payload| + 1 + |e.scaler.payload| + 1;
    FieldAt(frame, valueAt, e.value);
    HeldSlice(frame, valueAt + 1, e.value.payload);
  }

  /** Where an entry's leading fields are written, their tags lie where the decoder looks, and `last` follows them. */
  lemma LeadingFieldsAt(frame: seq<byte>, start: nat, e: Entry, last: seq<byte>)
    requires EntryWellFormed(e) && HoldsAt(frame, start, EncodeEntryWith(e, last))
    ensures TagAt(frame, start, e.status)
    ensures TagAt(frame, start + |e.status.payload| + 1, e.time)
    ensures TagAt(frame, start + |e.status.payload| + 1 + |e.time.payload| + 1, e.unit)
    ensures TagAt(frame, start + |e.status.payload| + 1 + |e.time.payload| + 1 + |e.unit.payload| + 1, e.scaler)
    ensures HoldsAt(frame, start + |e.status.payload| + 1 + |e.time.payload| + 1 + |e.unit.payload| + 1 + |e.scaler.payload| + 1, last)
  {
    var t, u, c := EncodeField(e.time), EncodeField(e.unit), EncodeField(e.scaler);
    var timeAt := start + |e.status.payload| + 1;
    var unitAt := timeAt + |e.time.payload| + 1;
    var scalerAt := unitAt + |e.unit.payload| + 1;
    FieldThen(frame, start, e.status, t + (u + (c + last)));
    FieldThen(frame, timeAt, e.time, u + (c + last));
    FieldThen(frame, unitAt, e.unit, c + last);
    FieldThen(frame, scalerAt, e.scaler, last);
  }

  /** Where the fields of `e` are laid out from `start` on, the decoder reads exactly what `Expected` says. */
  lemma DecodeLaidOut(frame: seq<byte>, e: Entry, start: nat, timeAt: nat, unitAt: nat, scalerAt: nat, valueAt: nat)
    requires EntryWellFormed(e)
    requires timeAt == start + |e.status.payload| + 1 && unitAt == timeAt + |e.time.payload| + 1
    requires scalerAt == unitAt + |e.unit.payload| + 1 && valueAt == scalerAt + |e.scaler.payload| + 1
    requires TagAt(frame, start, e.status) && TagAt(frame, timeAt, e.time) && TagAt(frame, unitAt, e.unit)
    requires TagAt(frame, scalerAt, e.scaler) && TagAt(frame, valueAt, e.value)
    requires frame[valueAt + 1..valueAt + 1 + |e.value.payload|] == e.value.payload
    ensures DecodeFields(frame, start) == Some(Expected(e))
  {
  }

  /** Where the leading fields of `e` are followed by a value tag of length 0, the decoder gives up. */
  lemma ZeroLengthWalk(frame: seq<byte>, e: Entry, start: nat, timeAt: nat, unitAt: nat, scalerAt: nat, valueAt: nat)
    requires EntryWellFormed(e)
    requires timeAt == start + |e.status.payload| + 1 && unitAt == timeAt + |e.time.payload| + 1
    requires scalerAt == unitAt + |e.unit.payload| + 1 && valueAt == scalerAt + |e.scaler.payload| + 1
    requires TagAt(frame, start, e.status) && TagAt(frame, timeAt, e.time) && TagAt(frame, unitAt, e.unit)
    requires TagAt(frame, scalerAt, e.scaler)
    requires valueAt < |frame| && LowNibble(frame[valueAt]) == 0
    ensures DecodeFields(frame, start) == None
  {
  }

  /** The bytes held from `at` on form the slice of `frame` starting at `at`. */
  lemma HeldSlice(frame: seq<byte>, at: nat, x: seq<byte>)
    requires HoldsAt(frame, at, x)
    ensures frame[at..at + |x|] == x
  {
    forall k | 0 <= k < |x|
      ensures frame[at..at + |x|][k] == x[k]
    {
      assert frame[at + k] == x[k];
    }
  }

  /** Where an encoded field followed by `tail` is held, the field's tag sits at its start and `tail` follows the field. */
  lemma FieldThen(frame: seq<byte>, at: nat, f: Field, tail: seq<byte>)
    requires FieldWellFormed(f) && HoldsAt(frame, at, EncodeField(f) + tail)
    ensures TagAt(frame, at, f) && HoldsAt(frame, at + |f.payload| + 1, tail)
  {
    var enc := EncodeField(f);
    forall k | 0 <= k < |enc|
      ensures frame[at + k] == enc[k]
    {
      assert (enc + tail)[k] == enc[k];
    }
    FieldAt(frame, at, f);
    forall k | 0 <= k < |tail|
      ensures frame[at + |f.payload| + 1 + k] == tail[k]
    {
      assert (enc + tail)[|enc| + k] == tail[k];
    }
  }

  /** Where an encoded field is held, its tag gives its length and its payload follows the tag. */
  lemma FieldAt(frame: seq<byte>, at: nat, f: Field)
    requires FieldWellFormed(f) && HoldsAt(frame, at, EncodeField(f))
    ensures TagAt(frame, at, f) && HoldsAt(frame, at + 1, f.payload)
  {
    var enc := EncodeField(f);
    assert frame[at + 0] == enc[0];
    forall k | 0 <= k < |f.payload|
      ensures frame[at + 1 + k] == f.payload[k]
    {
      assert frame[at + (1 + k)] == enc[1 + k];
    }
  }

  /**
   * The decoder does not sign-extend: a signed (type 0x50) value whose payload is
   * shorter than eight bytes decodes to the unsigned big-endian number of its
   * payload, never to a negative number (one payload byte 0xFF gives 255, not -1).
   */
  lemma SignedShortValueNotExtended(frame: seq<byte>, start: nat, e: Entry)
    requires EntryWellFormed(e) && e.value.kind == 0x50 && |e.value.payload| < 8
    requires HoldsAt(frame, start, EncodeEntry(e))
    ensures DecodeFields(frame, start) == Some(Expected(e))
    ensures Expected(e).value == BigEndian(e.value.payload) >= 0
  {
    DecodeEncoded(frame, start, e);
    var p := e.value.payload;
    ShortPayloadExact(p);
    BigEndianBound(p);
    Pow256Monotone(|p|, 7);
    assert Pow256(7) == 0x100_0000_0000_0000;
    assert Accumulate(p) < TWO_63;
  }

  /** The list entry of the worked example: status and time empty, unit 30 (W), scaler -1, signed value 0x012C. */
  const EXAMPLE_ENTRY: seq<byte> := [0x01, 0x01, 0x02, 0x1E, 0x02, 0xFF, 0x53, 0x01, 0x2C]

  /** The example entry as fields. */
  const EXAMPLE: Entry := Entry(Field(0, []), Field(0, []), Field(0, [0x1E]), Field(0, [0xFF]), Field(0x50, [0x01, 0x2C]))

  /** The example's fields are well formed, encode to the example bytes, and stand for 300 W with scaler -1. */
  lemma ExampleEncoding()
    ensures EntryWellFormed(EXAMPLE) && EncodeEntry(EXAMPLE) == EXAMPLE_ENTRY
    ensures Expected(EXAMPLE) == MetricValue(300, 30, -1)
  {
    assert Accumulate([0x01, 0x2C]) == 300 by {
      assert [0x01, 0x2C][..1] == [0x01 as byte];
      assert Accumulate([0x01]) == 1 by {
        assert [0x01 as byte][..0] == [];
      }
    }
  }

  /** A sequence is held in any frame that surrounds it. */
  lemma HeldBetween(before: seq<byte>, x: seq<byte>, after: seq<byte>)
    ensures HoldsAt(before + x + after, |before|, x)
  {
    var frame := before + x + after;
    forall k | 0 <= k < |x|
      ensures frame[|before| + k] == x[k]
    {
    }
  }

  /** The power-in pattern followed by the example entry decodes to 300 W with scaler -1. */
  lemma PowerInExample(prefix: seq<byte>, suffix: seq<byte>)
    requires FirstOccurrence(prefix + POWER_IN + EXAMPLE_ENTRY + suffix, POWER_IN) == Some(|prefix|)
    ensures DecodeMetric(prefix + POWER_IN + EXAMPLE_ENTRY + suffix, POWER_IN) == Some(MetricValue(300, 30, -1))
  {
    ExampleEncoding();
    HeldBetween(prefix + POWER_IN, EXAMPLE_ENTRY, suffix);
    DecodeEncoded(prefix + POWER_IN + EXAMPLE_ENTRY + suffix, |prefix + POWER_IN|, EXAMPLE);
  }

  /** A frame holding only the power-in pattern and the example entry: the pattern is found at its start. */
  lemma PowerInExampleFound()
    ensures DecodeMetric(POWER_IN + EXAMPLE_ENTRY, POWER_IN) == Some(MetricValue(300, 30, -1))
  {
    var frame := POWER_IN + EXAMPLE_ENTRY;
    assert HoldsAt(frame, 0, POWER_IN);
    assert [] + POWER_IN + EXAMPLE_ENTRY + [] == frame;
    PowerInExample([], []);
  }

  /** A value tag of length 0 makes the metric absent instead of running the payload loop 255 times. */
  lemma ZeroLengthValueAbsent(frame: seq<byte>, start: nat, e: Entry, tag: byte)
    requires EntryWellFormed(e) && LowNibble(tag) == 0 && HoldsAt(frame, start, EncodeEntryWith(e, [tag]))
    ensures DecodeFields(frame, start) == None
  {
    LeadingFieldsAt(frame, start, e, [tag]);
    var timeAt := start + |e.status.payload| + 1;
    var unitAt := timeAt + |e.time.payload| + 1;
    var scalerAt := unitAt + |e.unit.payload| + 1;
    var valueAt := scalerAt + |e.scaler.payload| + 1;
    assert frame[valueAt + 0] == [tag][0];
    ZeroLengthWalk(frame, e, start, timeAt, unitAt, scalerAt, valueAt);
  }
}
