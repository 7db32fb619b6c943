/** Bounding-box arithmetic of `temporal_consistency/utils.py`: the two box
    encodings and intersection-over-union. */
module Geometry {

  /** A box as the source passes it around: a list of four integers, either
      `[left, top, right, bottom]` (ltrb) or `[left, top, width, height]` (ltwh). */
  type Box = s: seq<int> | |s| == 4 witness [0, 0, 0, 0]

  /** `sys.float_info.epsilon` (2^-52), added to the IoU denominator so that it is
      never zero. */
  const EPS: real := 1.0 / 4503599627370496.0

  function MaxInt(a: int, b: int): int { if a >= b then a else b }

  function MinInt(a: int, b: int): int { if a <= b then a else b }

  // ---------------------------------------------------------------------------
  // ltwh <-> ltrb

  /** `ltwh_to_ltrb` as a value: right = left + width, bottom = top + height. */
  function LtwhToLtrb(ltwh: Box): Box
  {
    [ltwh[0], ltwh[1], ltwh[2] + ltwh[0], ltwh[3] + ltwh[1]]
  }

  /** `ltrb_to_ltwh` as a value: width = right - left, height = bottom - top. */
  function LtrbToLtwh(ltrb: Box): Box
  {
    [ltrb[0], ltrb[1], ltrb[2] - ltrb[0], ltrb[3] - ltrb[1]]
  }

  /** Converting to corners and back gives the original box. */
  lemma LtwhRoundTrip(ltwh: Box)
    ensures LtrbToLtwh(LtwhToLtrb(ltwh)) == ltwh
  {
  }

  /** Converting to width/height and back gives the original box. */
  lemma LtrbRoundTrip(ltrb: Box)
    ensures LtwhToLtrb(LtrbToLtwh(ltrb)) == ltrb
  {
  }

  /** The source's `ltwh_to_ltrb`: deep-copies the list, then adds left and top
      to the copy's elements 2 and 3. The argument is left as it was. */
  method LtwhToLtrbCopy(ltwh: array<int>) returns (ltrb: array<int>)
    requires ltwh.Length == 4
    ensures fresh(ltrb)
    ensures ltrb[..] == LtwhToLtrb(ltwh[..])
    ensures ltwh[..] == old(ltwh[..])
  {
    ltrb := new int[4](i requires 0 <= i < 4 reads ltwh => ltwh[i]);
    ltrb[2] := ltrb[2] + ltrb[0];
    ltrb[3] := ltrb[3] + ltrb[1];
  }

  /** The source's `ltrb_to_ltwh`: deep-copies the list, then subtracts left and
      top from the copy's elements 2 and 3. The argument is left as it was. */
  method LtrbToLtwhCopy(ltrb: array<int>) returns (ltwh: array<int>)
    requires ltrb.Length == 4
    ensures fresh(ltwh)
    ensures ltwh[..] == LtrbToLtwh(ltrb[..])
    ensures ltrb[..] == old(ltrb[..])
  {
    ltwh := new int[4](i requires 0 <= i < 4 reads ltrb => ltrb[i]);
    ltwh[2] := ltwh[2] - ltwh[0];
    ltwh[3] := ltwh[3] - ltwh[1];
  }

  // ---------------------------------------------------------------------------
  // Intersection over union

  /** Corners in order: right >= left and bottom >= top. */
  predicate WellFormed(b: Box)
  {
    b[0] <= b[2] && b[1] <= b[3]
  }

  /** `(right - left) * (bottom - top)`; negative for a box whose corners are
      swapped along one axis. */
  function Area(b: Box): int
  {
    (b[2] - b[0]) * (b[3] - b[1])
  }

  /** Width and height of the overlap of two ltrb boxes, clamped at zero. */
  function InterWidth(a: Box, b: Box): (w: int)
    ensures w >= 0
  {
    MaxInt(0, MinInt(a[2], b[2]) - MaxInt(a[0], b[0]))
  }

  function InterHeight(a: Box, b: Box): (h: int)
    ensures h >= 0
  {
    MaxInt(0, MinInt(a[3], b[3]) - MaxInt(a[1], b[1]))
  }

  /** The area of the intersection rectangle; never negative. */
  function InterArea(a: Box, b: Box): (r: int)
    ensures r >= 0
  {
    MulNonNegative(InterWidth(a, b), InterHeight(a, b));
    InterWidth(a, b) * InterHeight(a, b)
  }

  /** The denominator of the IoU before EPS is added. */
  function UnionArea(a: Box, b: Box): int
  {
    Area(a) + Area(b) - InterArea(a, b)
  }

  /** The double `float(union + EPS)` for an integer union `u`, rounded to
      nearest with ties to even. For `u >= 2` or `u <= -3`, EPS is at most half
      a unit in the last place of `u`, and the sum rounds back to `u` itself:
      a tie, at 2, 3 and -3, -4, goes to `u`, whose last mantissa bit is 0.
      For `-2 <= u <= 1`, `u + 2^-52` is itself a double. This is exact while
      `|u| < 2^53`, the range in which doubles hold every integer. */
  function RoundedDenominator(u: int): (d: real)
    ensures d != 0.0
    ensures u as real <= d <= u as real + EPS
    ensures u >= 2 || u <= -3 ==> d == u as real
  {
    if u >= 2 || u <= -3 then u as real else u as real + EPS
  }

  /** `compute_iou`: the intersection divided by `float(union + EPS)`. The
      denominator is never zero, so the division is always defined, for any
      four integers per box. */
  function Iou(a: Box, b: Box): real
  {
    InterArea(a, b) as real / RoundedDenominator(UnionArea(a, b))
  }

  lemma MulNonNegative(x: int, y: int)
    requires x >= 0 && y >= 0
    ensures x * y >= 0
  {
  }

  lemma MulMonotone(x: int, y: int, x': int, y': int)
    requires 0 <= x <= x' && 0 <= y <= y'
    ensures x * y <= x' * y'
  {
    assert x * y <= x' * y by {
      assert (x' - x) * y >= 0;
    }
    assert x' * y <= x' * y' by {
      assert x' * (y' - y) >= 0;
    }
  }

  /** IoU does not depend on the order of its arguments. */
  lemma IouSymmetric(a: Box, b: Box)
    ensures InterArea(a, b) == InterArea(b, a)
    ensures UnionArea(a, b) == UnionArea(b, a)
    ensures Iou(a, b) == Iou(b, a)
  {
  }

  /** Boxes that are apart, or that only touch along an edge or at a corner,
      have an empty intersection and IoU 0. */
  lemma IouZeroWhenApart(a: Box, b: Box)
    requires a[2] <= b[0] || b[2] <= a[0] || a[3] <= b[1] || b[3] <= a[1]
    ensures InterArea(a, b) == 0
    ensures Iou(a, b) == 0.0
  {
  }

  /** For well-formed boxes the intersection is no larger than either box. */
  lemma {:induction false} InterWithinAreas(a: Box, b: Box)
    requires WellFormed(a) && WellFormed(b)
    ensures 0 <= InterArea(a, b) <= Area(a)
    ensures InterArea(a, b) <= Area(b)
    ensures InterArea(a, b) <= UnionArea(a, b)
  {
    MulMonotone(InterWidth(a, b), InterHeight(a, b), a[2] - a[0], a[3] - a[1]);
    MulMonotone(InterWidth(a, b), InterHeight(a, b), b[2] - b[0], b[3] - b[1]);
  }

  /** For well-formed boxes IoU lies in [0, 1], and it is 1 exactly when the
      boxes cover the same area of at least 2: then EPS is rounded away. */
  lemma {:induction false} IouBounds(a: Box, b: Box)
    requires WellFormed(a) && WellFormed(b)
    ensures 0.0 <= Iou(a, b) <= 1.0
    ensures Iou(a, b) == 1.0 <==> InterArea(a, b) == UnionArea(a, b) >= 2
  {
    InterWithinAreas(a, b);
    var i, u := InterArea(a, b), UnionArea(a, b);
    var d := RoundedDenominator(u);
    if u >= 2 {
      assert d == u as real;
      if i < u {
        DivBelowOne(i as real, d);
      }
    } else {
      assert 0.0 <= i as real < d;
      DivBelowOne(i as real, d);
    }
  }

  lemma DivBelowOne(x: real, d: real)
    requires 0.0 <= x < d
    ensures 0.0 <= x / d < 1.0
  {
  }

  /** EPS does not perceptibly bias the result: for well-formed boxes with a
      positive union, the IoU is below the exact ratio by less than EPS, and
      equal to it once the union is at least 2. */
  lemma {:induction false} IouNearExactRatio(a: Box, b: Box)
    requires WellFormed(a) && WellFormed(b)
    requires UnionArea(a, b) > 0
    ensures 0.0 <= (InterArea(a, b) as real / UnionArea(a, b) as real) - Iou(a, b) < EPS
    ensures UnionArea(a, b) >= 2 ==> Iou(a, b) == InterArea(a, b) as real / UnionArea(a, b) as real
  {
    InterWithinAreas(a, b);
    if UnionArea(a, b) == 1 {
      RatioShift(InterArea(a, b) as real, 1.0);
    }
  }

  lemma RatioShift(i: real, u: real)
    requires 0.0 <= i <= u && u >= 1.0
    ensures 0.0 <= i / u - i / (u + EPS) < EPS
  {
    var diff := i / u - i / (u + EPS);
    assert diff == (i * EPS) / (u * (u + EPS));
    assert i * EPS <= u * EPS;
    assert u * EPS < u * (u + EPS) * EPS by {
      assert u * (u + EPS) > u;
    }
  }

  /** A well-formed box compared with itself: intersection and union are its
      area. The IoU is exactly 1 for an area of 2 or more, and 1 / (1 + EPS),
      just below 1, for an area of 1. */
  lemma {:induction false} IouIdentical(a: Box)
    requires WellFormed(a)
    ensures InterArea(a, a) == Area(a) && UnionArea(a, a) == Area(a)
    ensures Area(a) >= 2 ==> Iou(a, a) == 1.0
    ensures Area(a) == 1 ==> 1.0 - EPS < Iou(a, a) < 1.0
  {
    assert InterWidth(a, a) == a[2] - a[0];
    assert InterHeight(a, a) == a[3] - a[1];
    if Area(a) == 1 {
      IouNearExactRatio(a, a);
      IouBounds(a, a);
    }
  }

  /** A box inside another: the intersection is the inner box and the union
      the outer one. */
  lemma {:induction false} IouNested(outer: Box, inner: Box)
    requires WellFormed(inner)
    requires outer[0] <= inner[0] && inner[2] <= outer[2]
    requires outer[1] <= inner[1] && inner[3] <= outer[3]
    ensures InterArea(outer, inner) == Area(inner)
    ensures UnionArea(outer, inner) == Area(outer)
  {
    assert InterWidth(outer, inner) == inner[2] - inner[0];
    assert InterHeight(outer, inner) == inner[3] - inner[1];
  }

  /** Moving both boxes by the same offset leaves the IoU unchanged. */
  lemma {:induction false} IouShiftInvariant(a: Box, b: Box, dx: int, dy: int)
    ensures Iou(Shift(a, dx, dy), Shift(b, dx, dy)) == Iou(a, b)
  {
    var a', b' := Shift(a, dx, dy), Shift(b, dx, dy);
    assert InterWidth(a', b') == InterWidth(a, b);
    assert InterHeight(a', b') == InterHeight(a, b);
    assert Area(a') == Area(a) && Area(b') == Area(b);
  }

  function Shift(b: Box, dx: int, dy: int): Box
  {
    [b[0] + dx, b[1] + dy, b[2] + dx, b[3] + dy]
  }

  /** The unit-test vectors of `compute_iou`: each expected value is within
      10^-10 of the computed IoU; all but the unit square against itself are
      met exactly. */
  lemma IouTestVectors()
    ensures Iou([0, 0, 1, 1], [3, 3, 4, 4]) == 0.0
    ensures Iou([0, 0, 1, 1], [1, 1, 2, 2]) == 0.0
    ensures 0.0 <= 1.0 - Iou([0, 0, 1, 1], [0, 0, 1, 1]) < 0.0000000001
    ensures Iou([0, 0, 2, 2], [1, 1, 3, 3]) == 1.0 / 7.0
    ensures Iou([0, 0, 3, 3], [1, 1, 2, 2]) == 1.0 / 9.0
    ensures Iou([-3, -3, -1, -1], [-2, -2, -1, -1]) == 1.0 / 4.0
    ensures Iou([-3, -3, 1, 1], [-4, -4, -2, -2]) == 1.0 / 19.0
  {
    IouZeroWhenApart([0, 0, 1, 1], [3, 3, 4, 4]);
    IouZeroWhenApart([0, 0, 1, 1], [1, 1, 2, 2]);
    IouIdentical([0, 0, 1, 1]);
    assert EPS < 0.0000000001;
    ExactVector([0, 0, 2, 2], [1, 1, 3, 3], 1, 7);
    ExactVector([0, 0, 3, 3], [1, 1, 2, 2], 1, 9);
    ExactVector([-3, -3, -1, -1], [-2, -2, -1, -1], 1, 4);
    ExactVector([-3, -3, 1, 1], [-4, -4, -2, -2], 1, 19);
  }

  lemma ExactVector(a: Box, b: Box, i: int, u: int)
    requires InterArea(a, b) == i && UnionArea(a, b) == u && u >= 2
    ensures Iou(a, b) == i as real / u as real
  {
  }
}
