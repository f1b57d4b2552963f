/**
 * Scaling of analogue axes and triggers
 * (client/moonlight-embedded-mod/src/input/evdev.c).
 */
module AxisScaling {
  import opened Text

  const SHRT_MIN := -0x8000
  const SHRT_MAX := 0x7fff
  const UCHAR_MAX := 0xff

  /** A value that a C int can hold. */
  predicate IsInt(x: int) { -0x8000_0000 <= x <= 0x7fff_ffff }

  /** Division as C does it, towards zero. */
  function Quotient(a: int, b: int): int
    requires b != 0
  {
    if a >= 0 then a / b else -(-a / b)
  }

  /** The conversion of an int to a short. */
  function ToShort(x: int): (r: int)
    ensures SHRT_MIN <= r <= SHRT_MAX
    ensures SHRT_MIN <= x <= SHRT_MAX ==> r == x
  {
    (x - SHRT_MIN) % 0x1_0000 + SHRT_MIN
  }

  /** It wraps around. */
  lemma ToShortWraps(x: int)
    ensures (ToShort(x) - x) % 65536 == 0
  {
    assert (x - SHRT_MIN) - (x - SHRT_MIN) % 65536 == (x - SHRT_MIN) / 65536 * 65536;
  }

  function Abs(x: int): int { if x < 0 then -x else x }

  datatype Parms = Parms(min: int, max: int, flat: int, avg: int, range: int, diff: int)

  /** What the driver reports of one axis. */
  datatype Axis = Axis(flat: int, min: int, max: int)

  class InputAbsParms {
    var min: int
    var max: int
    var flat: int
    var avg: int
    var range: int
    var diff: int

    ghost function Value(): Parms
      reads this
    {
      Parms(min, max, flat, avg, range, diff)
    }

    /** evdev_init_parms; no axis is given when the code is not mapped. */
    method Init(axis: Option<Axis>) returns (valid: bool)
      requires axis.Some? ==> IsInt(axis.value.min + axis.value.max) && IsInt(axis.value.max - axis.value.min)
      modifies this
      ensures valid <==> axis != Some(Axis(0, 0, 0))
      ensures axis == None ==> Value() == old(Value())
      ensures axis.Some? && valid ==> Value() == Calibration(axis.value)
      ensures !valid ==> Value() == old(Value()).(min := 0, max := 0, flat := 0)
    {
      if axis.Some? {
        flat, min, max := axis.value.flat, axis.value.min, axis.value.max;
        if flat == 0 && min == 0 && max == 0 {
          return false;
        }
        avg := Quotient(min + max, 2);
        range := max - avg;
        diff := max - min;
      }
      return true;
    }
  }

  function Calibration(a: Axis): Parms {
    var avg := Quotient(a.min + a.max, 2);
    Parms(a.min, a.max, a.flat, avg, a.max - avg, a.max - a.min)
  }

  /** evdev_get_map: the first slot that holds the value, or -1. */
  method GetMap(slots: seq<int>, value: int) returns (index: int)
    ensures index == -1 ==> value !in slots
    ensures index != -1 ==> 0 <= index < |slots| && slots[index] == value && value !in slots[..index]
  {
    for i := 0 to |slots|
      invariant value !in slots[..i]
    {
      if value == slots[i] {
        return i;
      }
    }
    return -1;
  }

  // ----- sticks -----

  /** Neither absent, nor in the dead zone, nor clamped: the division is carried out. */
  predicate Divides(v: int, p: Parms) {
    !(p.max == 0 && p.min == 0) && Abs(v - p.avg) >= p.flat && p.min <= v <= p.max
  }

  /** No int expression that evdev_convert_value evaluates for v overflows or divides by zero. */
  predicate NoOverflow(v: int, p: Parms, reverse: bool) {
    p.max == 0 == p.min ||
    (Abs(v - p.avg) <= 0x7fff_ffff && (Divides(v, p) ==> DivisionFits(v, p, reverse)))
  }

  predicate DivisionFits(v: int, p: Parms, reverse: bool) {
    && IsInt(2 * p.flat) && IsInt(p.max - p.min) && IsInt(Span(p)) && Span(p) != 0
    && (if reverse then
          var top := p.max - (if v < p.avg then 2 * p.flat else 0);
          IsInt(top) && IsInt(top - v)
        else
          var low := v - (if v > p.avg then 2 * p.flat else 0);
          IsInt(low) && IsInt(low - p.min))
  }

  function Numerator(v: int, p: Parms, reverse: bool): int {
    if reverse then p.max - (if v < p.avg then 2 * p.flat else 0) - v
    else v - (if v > p.avg then 2 * p.flat else 0) - p.min
  }

  function Span(p: Parms): int {
    p.max - p.min - 2 * p.flat
  }

  /** The value evdev_convert_value returns, before its conversion to a short. */
  function Scaled(v: int, p: Parms, reverse: bool): int
    requires NoOverflow(v, p, reverse)
  {
    if p.max == 0 && p.min == 0 then 0
    else if Abs(v - p.avg) < p.flat then 0
    else if v > p.max then (if reverse then SHRT_MIN else SHRT_MAX)
    else if v < p.min then (if reverse then SHRT_MAX else SHRT_MIN)
    else Quotient(Numerator(v, p, reverse) * (SHRT_MAX - SHRT_MIN), Span(p)) + SHRT_MIN
  }

  function Convert(v: int, p: Parms, reverse: bool): int
    requires NoOverflow(v, p, reverse)
  {
    ToShort(Scaled(v, p, reverse))
  }

  /** A proper axis, its middle computed as evdev_init_parms does. */
  predicate Calibrated(p: Parms) {
    p.min < p.max && p.flat >= 0 && 2 * p.flat < p.max - p.min && p.avg == Quotient(p.min + p.max, 2)
  }

  predicate DeadZone(v: int, p: Parms) {
    Abs(v - p.avg) < p.flat
  }

  /** Outside the dead zone the numerators lie between 0 and the span, and mirror each other. */
  lemma NumeratorRange(v: int, p: Parms)
    requires Calibrated(p) && !DeadZone(v, p) && p.min <= v <= p.max
    ensures 0 <= Numerator(v, p, false) <= Span(p)
    ensures Numerator(v, p, true) == Span(p) - Numerator(v, p, false)
  {
  }

  lemma DivisionBounds(n: int, d: int, k: int)
    requires 0 <= n <= d && 0 < d && 0 <= k
    ensures 0 <= n * k / d <= k
  {
    assert 0 <= n * k <= d * k;
    DivisionMonotone(0, n * k, d);
    DivisionMonotone(n * k, d * k, d);
    DivisionExact(k, d);
  }

  lemma Product(d: int, k: int)
    requires 0 < d && 0 <= k
    ensures 0 <= d * k
  {
  }

  lemma ProductGap(d: int, x: int, y: int)
    requires 0 < d
    ensures x < y ==> d * x + d <= d * y
  {
    if x < y {
      var k := y - x - 1;
      Product(d, k);
      assert d * (x + 1 + k) == d * x + d + d * k;
    }
  }

  lemma QuotientOf(a: int, d: int, q: int, r: int)
    requires 0 < d && 0 <= r < d && a == d * q + r
    ensures a / d == q
  {
    ProductGap(d, q, a / d);
    ProductGap(d, a / d, q);
  }

  lemma DivisionExact(k: int, d: int)
    requires 0 < d
    ensures d * k / d == k
  {
    QuotientOf(d * k, d, k, 0);
  }

  lemma DivisionMonotone(a: int, b: int, d: int)
    requires a <= b && 0 < d
    ensures a / d <= b / d
  {
    ProductGap(d, b / d, a / d);
  }

  /** The scaled value fits a short: the final conversion never changes it. */
  lemma ScaledFitsShort(v: int, p: Parms, reverse: bool)
    requires Calibrated(p) && NoOverflow(v, p, reverse)
    ensures SHRT_MIN <= Scaled(v, p, reverse) <= SHRT_MAX
    ensures Convert(v, p, reverse) == Scaled(v, p, reverse)
  {
    if !DeadZone(v, p) && p.min <= v <= p.max {
      NumeratorRange(v, p);
      DivisionBounds(Numerator(v, p, reverse), Span(p), SHRT_MAX - SHRT_MIN);
    }
  }

  /** The ends of the axis are the ends of the short range. */
  lemma EndsMapToEnds(p: Parms, reverse: bool)
    requires Calibrated(p) && NoOverflow(p.min, p, reverse) && NoOverflow(p.max, p, reverse)
    ensures Convert(p.min, p, reverse) == if reverse then SHRT_MAX else SHRT_MIN
    ensures Convert(p.max, p, reverse) == if reverse then SHRT_MIN else SHRT_MAX
  {
    NumeratorRange(p.min, p);
    NumeratorRange(p.max, p);
    var k, d := SHRT_MAX - SHRT_MIN, Span(p);
    var low, high := Numerator(p.min, p, reverse), Numerator(p.max, p, reverse);
    assert (if reverse then low == d && high == 0 else low == 0 && high == d);
    DivisionExact(k, d);
    DivisionExact(0, d);
    assert Scaled(p.min, p, reverse) == (if reverse then k else 0) + SHRT_MIN;
    assert Scaled(p.max, p, reverse) == (if reverse then 0 else k) + SHRT_MIN;
    ScaledFitsShort(p.min, p, reverse);
    ScaledFitsShort(p.max, p, reverse);
  }

  /** Monotone outside the dead zone, clamped values included; reversal turns the order. */
  lemma ConvertMonotone(v: int, w: int, p: Parms, reverse: bool)
    requires Calibrated(p) && NoOverflow(v, p, reverse) && NoOverflow(w, p, reverse)
    requires !DeadZone(v, p) && !DeadZone(w, p) && v <= w
    ensures if reverse then Convert(v, p, true) >= Convert(w, p, true) else Convert(v, p, false) <= Convert(w, p, false)
  {
    ScaledFitsShort(v, p, reverse);
    ScaledFitsShort(w, p, reverse);
    if p.min <= v && w <= p.max {
      NumeratorRange(v, p);
      NumeratorRange(w, p);
      var k := SHRT_MAX - SHRT_MIN;
      var a, b := Numerator(v, p, reverse), Numerator(w, p, reverse);
      if reverse { DivisionMonotone(b * k, a * k, Span(p)); } else { DivisionMonotone(a * k, b * k, Span(p)); }
    }
  }

  lemma DivisionLies(a: int, d: int)
    requires 0 < d
    ensures d * (a / d) <= a < d * (a / d) + d
  {
  }

  /** A value within the limits, moved up or down by the dead zone's width, in proportion to the span. */
  lemma StickValue(v: int, p: Parms, reverse: bool)
    requires Calibrated(p) && NoOverflow(v, p, reverse) && !DeadZone(v, p) && p.min <= v <= p.max
    ensures var d, r := p.max - p.min - 2 * p.flat, Convert(v, p, reverse) + 32768;
            var n := if reverse then p.max - (if v < p.avg then 2 * p.flat else 0) - v
                     else v - (if v > p.avg then 2 * p.flat else 0) - p.min;
            d * r <= n * 65535 < d * r + d
  {
    ScaledFitsShort(v, p, reverse);
    NumeratorRange(v, p);
    DivisionLies(Numerator(v, p, reverse) * 65535, Span(p));
  }

  /** Beyond the limits the ends, and in the dead zone the middle. */
  lemma StickValueBeyond(v: int, p: Parms, reverse: bool)
    requires Calibrated(p) && NoOverflow(v, p, reverse)
    ensures -p.flat < v - p.avg < p.flat ==> Convert(v, p, reverse) == 0
    ensures v > p.max ==> Convert(v, p, reverse) == if reverse then -32768 else 32767
    ensures v < p.min ==> Convert(v, p, reverse) == if reverse then 32767 else -32768
  {
    ScaledFitsShort(v, p, reverse);
  }

  /** Both edges of a dead zone map to one value, near zero. */
  lemma DeadZoneEdges(p: Parms, reverse: bool)
    requires Calibrated(p) && p.flat > 0
    requires NoOverflow(p.avg - p.flat, p, reverse) && NoOverflow(p.avg + p.flat, p, reverse)
    ensures Convert(p.avg - p.flat, p, reverse) == Convert(p.avg + p.flat, p, reverse)
    ensures 2 * Span(p) * Abs(Convert(p.avg + p.flat, p, reverse)) <= 65535 + 4 * Span(p)
  {
    var lo, hi := p.avg - p.flat, p.avg + p.flat;
    NumeratorRange(lo, p);
    NumeratorRange(hi, p);
    ScaledFitsShort(lo, p, reverse);
    ScaledFitsShort(hi, p, reverse);
    var n, d := Numerator(hi, p, reverse), Span(p);
    assert Numerator(lo, p, reverse) == n;
    assert d - 1 <= 2 * n <= d + 1;
    NearTheMiddle(n, d);
  }

  // ----- where the dead zone breaks the order -----

  /** The axes with a dead zone whose edges map to zero, as the dead zone does. */
  predicate ZeroEdges(p: Parms, reverse: bool) {
    && (if reverse then p.min + p.max > 0 else p.min + p.max < 0)
    && (p.min + p.max) % 2 == 1 && 21845 < Span(p) <= 65535
  }

  /** The numerator at both edges of the dead zone. */
  function EdgeNumerator(p: Parms, reverse: bool): int {
    if reverse then p.max - p.avg - p.flat else p.avg - p.flat - p.min
  }

  /** An edge's quotient is the middle of the range exactly for those. */
  lemma EdgeQuotient(p: Parms, reverse: bool)
    requires Calibrated(p)
    ensures EdgeNumerator(p, reverse) * 65535 / Span(p) == 32768 <==> ZeroEdges(p, reverse)
  {
    var s, d, n := p.min + p.max, Span(p), EdgeNumerator(p, reverse);
    assert 2 * n == if s % 2 == 0 then d else if (s < 0) != reverse then d + 1 else d - 1;
    var a := n * 65535;
    if a / d == 32768 {
      assert d * 32768 <= a < d * 32769;
    }
    if d * 32768 <= a < d * 32769 {
      QuotientOf(a, d, 32768, a - d * 32768);
    }
  }

  lemma EdgeAtZero(p: Parms, reverse: bool)
    requires Calibrated(p) && p.flat > 0 && NoOverflow(p.avg + p.flat, p, reverse)
    ensures Convert(p.avg + p.flat, p, reverse) == 0 <==> ZeroEdges(p, reverse)
  {
    var hi := p.avg + p.flat;
    NumeratorRange(hi, p);
    ScaledFitsShort(hi, p, reverse);
    assert Numerator(hi, p, reverse) == EdgeNumerator(p, reverse);
    EdgeQuotient(p, reverse);
  }

  /** The order the converted values have to be in: the axis' own, or turned around. */
  predicate InOrder(a: int, b: int, reverse: bool) {
    if reverse then a >= b else a <= b
  }

  ghost predicate MonotoneOverall(p: Parms, reverse: bool) {
    forall v, w :: NoOverflow(v, p, reverse) && NoOverflow(w, p, reverse) && v <= w
                   ==> InOrder(Convert(v, p, reverse), Convert(w, p, reverse), reverse)
  }

  predicate EdgesFit(p: Parms, reverse: bool) {
    NoOverflow(p.avg - p.flat, p, reverse) && NoOverflow(p.avg + p.flat, p, reverse)
  }

  lemma BelowDeadZone(p: Parms, v: int, reverse: bool)
    requires Calibrated(p) && EdgesFit(p, reverse) && NoOverflow(v, p, reverse) && v <= p.avg - p.flat && p.flat > 0
    ensures ZeroEdges(p, reverse) ==> InOrder(Convert(v, p, reverse), 0, reverse)
  {
    DeadZoneEdges(p, reverse);
    EdgeAtZero(p, reverse);
    ConvertMonotone(v, p.avg - p.flat, p, reverse);
  }

  lemma AboveDeadZone(p: Parms, v: int, reverse: bool)
    requires Calibrated(p) && EdgesFit(p, reverse) && NoOverflow(v, p, reverse) && v >= p.avg + p.flat && p.flat > 0
    ensures ZeroEdges(p, reverse) ==> InOrder(0, Convert(v, p, reverse), reverse)
  {
    EdgeAtZero(p, reverse);
    ConvertMonotone(p.avg + p.flat, v, p, reverse);
  }

  lemma InDeadZone(p: Parms, v: int, reverse: bool)
    requires Calibrated(p) && NoOverflow(v, p, reverse) && DeadZone(v, p)
    ensures Convert(v, p, reverse) == 0
  {
  }

  lemma MonotoneAcross(p: Parms, v: int, w: int, reverse: bool)
    requires Calibrated(p) && EdgesFit(p, reverse)
    requires NoOverflow(v, p, reverse) && NoOverflow(w, p, reverse) && v <= w
    ensures p.flat == 0 || ZeroEdges(p, reverse) ==> InOrder(Convert(v, p, reverse), Convert(w, p, reverse), reverse)
  {
    if DeadZone(v, p) {
      InDeadZone(p, v, reverse);
      if DeadZone(w, p) { InDeadZone(p, w, reverse); } else { AboveDeadZone(p, w, reverse); }
    } else if DeadZone(w, p) {
      InDeadZone(p, w, reverse);
      BelowDeadZone(p, v, reverse);
    } else {
      ConvertMonotone(v, w, p, reverse);
    }
  }

  lemma MonotoneWithZeroEdges(p: Parms, reverse: bool)
    requires Calibrated(p) && EdgesFit(p, reverse)
    ensures p.flat == 0 || ZeroEdges(p, reverse) ==> MonotoneOverall(p, reverse)
  {
    if p.flat == 0 || ZeroEdges(p, reverse) {
      forall v, w | NoOverflow(v, p, reverse) && NoOverflow(w, p, reverse) && v <= w
        ensures InOrder(Convert(v, p, reverse), Convert(w, p, reverse), reverse)
      {
        MonotoneAcross(p, v, w, reverse);
      }
    }
  }

  lemma NotMonotoneOtherwise(p: Parms, reverse: bool)
    requires Calibrated(p) && EdgesFit(p, reverse) && p.flat > 0
    ensures MonotoneOverall(p, reverse) ==> ZeroEdges(p, reverse)
  {
    var lo, hi := p.avg - p.flat, p.avg + p.flat;
    assert NoOverflow(p.avg, p, reverse) && DeadZone(p.avg, p);
    InDeadZone(p, p.avg, reverse);
    DeadZoneEdges(p, reverse);
    EdgeAtZero(p, reverse);
    if MonotoneOverall(p, reverse) {
      assert InOrder(Convert(lo, p, reverse), Convert(p.avg, p, reverse), reverse);
      assert InOrder(Convert(p.avg, p, reverse), Convert(hi, p, reverse), reverse);
    }
  }

  /**
   * The dead zone maps to zero, and its edges do so only on axes whose limits have an
   * odd sum, negative for the plain and positive for the reversed conversion, and a
   * span between 21846 and 65535. On every other axis with a dead zone that conversion
   * breaks the order.
   */
  lemma MonotoneOverallExactly(p: Parms, reverse: bool)
    requires Calibrated(p) && EdgesFit(p, reverse)
    ensures MonotoneOverall(p, reverse) <==> p.flat == 0 || ZeroEdges(p, reverse)
  {
    MonotoneWithZeroEdges(p, reverse);
    if p.flat > 0 {
      NotMonotoneOtherwise(p, reverse);
    }
  }

  /** No axis with a dead zone keeps the order in both directions. */
  lemma NotBothDirections(p: Parms)
    requires Calibrated(p) && p.flat > 0 && EdgesFit(p, false) && EdgesFit(p, true)
    ensures MonotoneOverall(p, true) ==> !MonotoneOverall(p, false)
    ensures ZeroEdges(p, false) ==> MonotoneOverall(p, false)
  {
    MonotoneOverallExactly(p, false);
    MonotoneOverallExactly(p, true);
  }

  /** An ordinary axis of 0..255 with a flat of 15: both edges map below the middle. */
  lemma OrdinaryAxisIsNotMonotone(p: Parms)
    requires p == Calibration(Axis(15, 0, 255))
    ensures Calibrated(p) && EdgesFit(p, false) && !MonotoneOverall(p, false)
    ensures NoOverflow(112, p, false) && Convert(112, p, false) < 0
    ensures NoOverflow(127, p, false) && Convert(127, p, false) == 0
    ensures NoOverflow(142, p, false) && Convert(142, p, false) < 0
  {
    assert p == Parms(0, 255, 15, 127, 128, 255);
    assert InOrder(Convert(127, p, false), Convert(142, p, false), false) == false;
  }

  lemma PadAxisReversed(p: Parms)
    requires p == Parms(-32768, 32767, 128, 0, 32767, 65535)
    ensures NoOverflow(-128, p, true) && Convert(-128, p, true) == -2
    ensures NoOverflow(0, p, true) && Convert(0, p, true) == 0
  {
    assert Numerator(-128, p, true) == 32639 && Span(p) == 65279;
    assert 32639 * 65535 / 65279 == 32766;
  }

  lemma PadAxisParms()
    ensures Calibration(Axis(128, -32768, 32767)) == Parms(-32768, 32767, 128, 0, 32767, 65535)
  {
    assert Quotient(-1, 2) == 0;
  }

  lemma PadAxisLimits(p: Parms)
    requires p == Parms(-32768, 32767, 128, 0, 32767, 65535)
    ensures Calibrated(p) && EdgesFit(p, false) && EdgesFit(p, true) && ZeroEdges(p, false)
  {
  }

  /** A pad's axis of 16 bits with a flat of 128 keeps the order, but not as a y axis, which is reversed. */
  lemma PadAxisIsNotMonotoneReversed(p: Parms)
    requires p == Calibration(Axis(128, -32768, 32767))
    ensures Calibrated(p) && MonotoneOverall(p, false) && !MonotoneOverall(p, true)
    ensures NoOverflow(-128, p, true) && Convert(-128, p, true) == -2
    ensures NoOverflow(0, p, true) && Convert(0, p, true) == 0
  {
    PadAxisParms();
    PadAxisLimits(p);
    PadAxisReversed(p);
    NotBothDirections(p);
  }

  lemma NearTheMiddle(n: int, d: int)
    requires 0 < d && 0 <= n && d - 1 <= 2 * n <= d + 1
    ensures 2 * d * Abs(n * 65535 / d - 32768) <= 65535 + 4 * d
  {
    var a := n * 65535;
    var f := a / d;
    assert a - d < d * f <= a;
    assert 2 * a == (2 * n) * 65535;
    assert (d - 1) * 65535 <= 2 * a <= (d + 1) * 65535;
    assert 2 * d * (f - 32768) == 2 * (d * f) - 65536 * d;
  }

  /** Plain plus reversed is -1 where the division is exact or the value clamped, else -2. */
  lemma ReversalComplements(v: int, p: Parms)
    requires Calibrated(p) && NoOverflow(v, p, false) && NoOverflow(v, p, true) && !DeadZone(v, p)
    ensures Convert(v, p, false) + Convert(v, p, true)
            == if v < p.min || v > p.max || Numerator(v, p, false) * 65535 % Span(p) == 0 then -1 else -2
  {
    ScaledFitsShort(v, p, false);
    ScaledFitsShort(v, p, true);
    if p.min <= v <= p.max {
      NumeratorRange(v, p);
      ComplementaryQuotients(Numerator(v, p, false), Span(p), 65535);
    }
  }

  lemma ComplementaryQuotients(n: int, d: int, k: int)
    requires 0 < d && 0 <= n <= d
    ensures n * k / d + (d - n) * k / d == if n * k % d == 0 then k else k - 1
  {
    var a := n * k;
    var q, r := a / d, a % d;
    assert a == d * q + r;
    assert (d - n) * k == d * k - a;
    assert d * k - a == d * (k - q) - r;
    if r == 0 {
      DivisionExact(k - q, d);
    } else {
      assert d * (k - q) - r == d * (k - q - 1) + (d - r);
      QuotientOf(d * (k - q) - r, d, k - q - 1, d - r);
    }
  }

  // ----- triggers -----

  /** No int expression that evdev_convert_value_byte evaluates for v overflows or divides by zero. */
  predicate NoOverflowByte(v: int, p: Parms) {
    p.max == 0 == p.min ||
    (Abs(v - p.min) <= 0x7fff_ffff && (Abs(v - p.min) >= p.flat && v <= p.max ==> ByteDivisionFits(v, p)))
  }

  predicate ByteDivisionFits(v: int, p: Parms) {
    && IsInt(v - p.flat) && IsInt(v - p.flat - p.min) && IsInt((v - p.flat - p.min) * UCHAR_MAX)
    && IsInt(p.diff - p.flat) && p.diff != p.flat
  }

  /** The value evdev_convert_value_byte returns, before its conversion to a byte. */
  function ScaledByte(v: int, p: Parms): int
    requires NoOverflowByte(v, p)
  {
    if p.max == 0 && p.min == 0 then 0
    else if Abs(v - p.min) < p.flat then 0
    else if v > p.max then UCHAR_MAX
    else Quotient((v - p.flat - p.min) * UCHAR_MAX, p.diff - p.flat)
  }

  predicate TriggerCalibrated(p: Parms) {
    p.flat >= 0 && p.diff == p.max - p.min && p.max - p.min > p.flat
  }

  /** From the minimum on the trigger value is monotone and within a byte. */
  lemma ByteMonotone(v: int, w: int, p: Parms)
    requires TriggerCalibrated(p) && NoOverflowByte(v, p) && NoOverflowByte(w, p)
    requires p.min <= v <= w
    ensures 0 <= ScaledByte(v, p) <= ScaledByte(w, p) <= UCHAR_MAX
  {
    var d := p.diff - p.flat;
    if v >= p.min + p.flat && v <= p.max {
      DivisionBounds(v - p.flat - p.min, d, UCHAR_MAX);
    }
    if w >= p.min + p.flat && w <= p.max {
      DivisionBounds(w - p.flat - p.min, d, UCHAR_MAX);
      DivisionMonotone((v - p.flat - p.min) * UCHAR_MAX, (w - p.flat - p.min) * UCHAR_MAX, d);
    }
  }

  /** Below the minimum the value leaves the byte range exactly when the quotient reaches -1. */
  lemma ByteFitsExactly(v: int, p: Parms)
    requires TriggerCalibrated(p) && NoOverflowByte(v, p) && !(p.min == 0 && p.max == 0)
    ensures 0 <= ScaledByte(v, p) <= UCHAR_MAX <==>
            v > p.max || Abs(v - p.min) < p.flat || (p.min + p.flat - v) * UCHAR_MAX < p.diff - p.flat
  {
    var n, d := v - p.flat - p.min, p.diff - p.flat;
    if v <= p.max && Abs(v - p.min) >= p.flat {
      if n >= 0 {
        DivisionBounds(n, d, UCHAR_MAX);
      } else {
        var a := -(n * UCHAR_MAX);
        assert a / d == 0 <==> a < d by {
          if a < d { QuotientOf(a, d, 0, a); } else { DivisionMonotone(d, a, d); }
        }
        DivisionMonotone(0, a, d);
      }
    }
  }

  /** Behind the dead zone at the minimum the trigger value is in proportion to the way that is left. */
  lemma TriggerValue(v: int, p: Parms)
    requires TriggerCalibrated(p) && NoOverflowByte(v, p) && p.min + p.flat <= v <= p.max
    ensures var n, d, r := v - p.flat - p.min, p.max - p.min - p.flat, ScaledByte(v, p);
            d * r <= n * 255 < d * r + d
  {
    DivisionLies((v - p.flat - p.min) * 255, p.max - p.min - p.flat);
  }

  /** It starts at 0, ends at 255 and stays there; in the dead zone it is 0. */
  lemma TriggerEnds(v: int, p: Parms)
    requires TriggerCalibrated(p) && NoOverflowByte(v, p)
    ensures v >= p.max ==> ScaledByte(v, p) == 255
    ensures -p.flat < v - p.min <= p.flat ==> ScaledByte(v, p) == 0
  {
    var d := p.max - p.min - p.flat;
    if v == p.max {
      DivisionExact(255, d);
    } else if v == p.min + p.flat {
      DivisionExact(0, d);
    }
  }

  /** Below the dead zone, which a device should not report, it is negative in the same proportion. */
  lemma TriggerValueBelow(v: int, p: Parms)
    requires TriggerCalibrated(p) && NoOverflowByte(v, p) && v < p.min && v <= p.min - p.flat
    ensures var n, d, r := p.min + p.flat - v, p.max - p.min - p.flat, -ScaledByte(v, p);
            d * r <= n * 255 < d * r + d
  {
    DivisionLies((p.min + p.flat - v) * 255, p.max - p.min - p.flat);
    assert (v - p.flat - p.min) * 255 == -((p.min + p.flat - v) * 255);
  }
}
