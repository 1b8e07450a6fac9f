/**
 * The publisher of the SML reader: decoded metric `i` is converted to
 * milli-units and written to 32-bit sink register `i` (the BAE910 user
 * registers userm, usern, usero, userp); a metric with no register is reported
 * and skipped.
 */
module Publisher {
  import opened Wrappers
  import opened Bytes
  import opened Tlv

  /** The number of 32-bit registers the sink offers. */
  const SLOT_COUNT: nat := 4

  /** The register metric `i` is written to, if the sink has one for it. */
  function SlotOf(i: nat): (r: Option<nat>)
    ensures r.Some? <==> i < SLOT_COUNT
    ensures r.Some? ==> r.value == i
  {
    if i < SLOT_COUNT then Some(i) else None
  }

  /** 10 to the power `n`. */
  function Pow10(n: nat): (r: nat)
    ensures r >= 1
  {
    if n == 0 then 1 else 10 * Pow10(n - 1)
  }

  /** `x / d` rounded toward zero, as a cast from floating point to an integer rounds. */
  function TruncDiv(x: int, d: nat): (r: int)
    requires d >= 1
    ensures x >= 0 ==> 0 <= r && r * d <= x < r * d + d
    ensures x < 0 ==> r <= 0 && r * d - d < x <= r * d
  {
    if x >= 0 then
      QuotientBounds(x, d);
      x / d
    else
      QuotientBounds(-x, d);
      NegatedProduct((-x) / d, d);
      -((-x) / d)
  }

  lemma QuotientBounds(y: nat, d: nat)
    requires d >= 1
    ensures 0 <= y / d && (y / d) * d <= y < (y / d) * d + d
  {
    assert y == (y / d) * d + y % d;
  }

  lemma NegatedProduct(q: int, d: int)
    ensures (-q) * d == -(q * d)
  {
  }

  /**
   * `value * 10^scaler * 1000` as an integer: exact when the scaler is at least
   * -3, rounded toward zero otherwise.
   */
  function MilliUnits(v: MetricValue): int
  {
    if v.scaler >= -3 then v.value * Pow10(v.scaler + 3) else TruncDiv(v.value, Pow10(-3 - v.scaler))
  }

  /** What a register receives: the milli-unit value cut to 32 bits and read as `int32_t`. */
  function RegisterValue(v: MetricValue): (r: i32)
    ensures (r as int - MilliUnits(v)) % TWO_32 == 0
    ensures -0x8000_0000 <= MilliUnits(v) < 0x8000_0000 ==> r as int == MilliUnits(v)
  {
    WrapInt32(MilliUnits(v))
  }

  /** For scalers of at least -3 no precision is lost: dividing the milli-units by the factor gives the raw value back. */
  lemma MilliUnitsExact(v: MetricValue)
    requires v.scaler >= -3
    ensures MilliUnits(v) / Pow10(v.scaler + 3) == v.value
    ensures MilliUnits(v) % Pow10(v.scaler + 3) == 0
  {
    var d := Pow10(v.scaler + 3);
    assert MilliUnits(v) == v.value * d;
    DivideProduct(v.value, d);
  }

  lemma DivideProduct(x: int, d: nat)
    requires d >= 1
    ensures (x * d) / d == x && (x * d) % d == 0
  {
    DivisionUnique(x * d, d, x, 0);
  }

  /** The registers after metric `i` with value `value` has been handled. */
  function PublishOne(slots: seq<i32>, i: nat, value: Option<MetricValue>): seq<i32>
    requires |slots| == SLOT_COUNT
  {
    match SlotOf(i)
    case None => slots
    case Some(s) => if value.Some? then slots[s := RegisterValue(value.value)] else slots
  }

  /** The registers after the metrics of `values` have been handled in table order. */
  function PublishAll(slots: seq<i32>, values: seq<Option<MetricValue>>): (r: seq<i32>)
    requires |slots| == SLOT_COUNT
    ensures |r| == SLOT_COUNT
    decreases |values|
  {
    if values == [] then slots
    else PublishOne(PublishAll(slots, values[..|values| - 1]), |values| - 1, values[|values| - 1])
  }

  /** The metric indices reported as having no register, for a table of `count` metrics. */
  function Unslotted(count: nat): (r: seq<nat>)
    ensures |r| == if count > SLOT_COUNT then count - SLOT_COUNT else 0
    ensures forall k :: 0 <= k < |r| ==> r[k] == SLOT_COUNT + k && SlotOf(r[k]).None?
  {
    if count > SLOT_COUNT then seq(count - SLOT_COUNT, k => SLOT_COUNT + k) else []
  }

  /**
   * Register `j` holds the value of metric `j` when that metric was decoded and
   * keeps its old content when it was absent or when there is no metric `j`;
   * metrics without a register change nothing.
   */
  lemma {:induction false} PublishAllAt(slots: seq<i32>, values: seq<Option<MetricValue>>, j: nat)
    requires |slots| == SLOT_COUNT && j < SLOT_COUNT
    ensures PublishAll(slots, values)[j]
         == if j < |values| && values[j].Some? then RegisterValue(values[j].value) else slots[j]
    decreases |values|
  {
    if values != [] {
      var init := values[..|values| - 1];
      PublishAllAt(slots, init, j);
      assert j < |init| ==> init[j] == values[j];
    }
  }

  /** Publishing the same decoded values twice leaves the registers as publishing them once. */
  lemma PublishIdempotent(slots: seq<i32>, values: seq<Option<MetricValue>>)
    requires |slots| == SLOT_COUNT
    ensures PublishAll(PublishAll(slots, values), values) == PublishAll(slots, values)
  {
    var once := PublishAll(slots, values);
    forall j | 0 <= j < SLOT_COUNT
      ensures PublishAll(once, values)[j] == once[j]
    {
      PublishAllAt(slots, values, j);
      PublishAllAt(once, values, j);
    }
  }

  /**
   * The publishing loop: for each metric in table order, write its register
   * value to its register, or report the metric when it has none.
   */
  method Publish(slots: array<i32>, values: seq<Option<MetricValue>>) returns (unslotted: seq<nat>)
    requires slots.Length == SLOT_COUNT
    modifies slots
    ensures slots[..] == PublishAll(old(slots[..]), values)
    ensures unslotted == Unslotted(|values|)
  {
    unslotted := [];
    var i := 0;
    while i < |values|
      invariant i <= |values|
      invariant slots[..] == PublishAll(old(slots[..]), values[..i])
      invariant unslotted == Unslotted(i)
    {
      assert values[..i + 1][..i] == values[..i];
      match SlotOf(i) {
        case Some(s) =>
          if values[i].Some? {
            slots[s] := RegisterValue(values[i].value);
          }
        case None =>
          unslotted := unslotted + [i];
      }
      i := i + 1;
    }
    assert values[..i] == values;
  }

  /** The worked example: 300 with scaler -1 is published as 30000 milli-units. */
  lemma ExampleRegisterValue()
    ensures RegisterValue(MetricValue(300, 30, -1)) == 30000
  {
    assert Pow10(2) == 100;
  }
}
