/** `IntHistogram`: a fixed-width histogram over one integer field, used by the optimizer to
    estimate the selectivity of a comparison with a constant. */
module Histograms {
  import opened JavaInts

  /** `Predicate.Op`. */
  datatype PredicateOp = Equals | GreaterThan | LessThan | LessThanOrEq | GreaterThanOrEq | Like | NotEquals

  /** What `estimateSelectivity` returns: a constant, `count * 1.0 / totalTuples`, or one minus
      that fraction. The floating-point division itself is left to `Ratio`. */
  datatype Estimate = Fixed(x: real) | Fraction(count: int) | OneMinusFraction(count: int)

  /** The value of an estimate over a non-empty histogram, in exact arithmetic. */
  function Ratio(e: Estimate, total: int): real
    requires total > 0
  {
    match e
    case Fixed(x) => x
    case Fraction(c) => c as real / total as real
    case OneMinusFraction(c) => 1.0 - c as real / total as real
  }

  /** The sum of `s[lo..hi]`. */
  function SumRange(s: seq<int>, lo: int, hi: int): int
    requires 0 <= lo <= hi <= |s|
    decreases hi - lo
  {
    if lo == hi then 0 else SumRange(s, lo, hi - 1) + s[hi - 1]
  }

  lemma {:induction false} SumRangeSplit(s: seq<int>, lo: int, mid: int, hi: int)
    requires 0 <= lo <= mid <= hi <= |s|
    ensures SumRange(s, lo, hi) == SumRange(s, lo, mid) + SumRange(s, mid, hi)
    decreases hi - mid
  {
    if hi > mid {
      SumRangeSplit(s, lo, mid, hi - 1);
    }
  }

  lemma {:induction false} SumRangeNonNeg(s: seq<int>, lo: int, hi: int)
    requires 0 <= lo <= hi <= |s| && forall i | lo <= i < hi :: s[i] >= 0
    ensures SumRange(s, lo, hi) >= 0
    decreases hi - lo
  {
    if lo < hi {
      SumRangeNonNeg(s, lo, hi - 1);
    }
  }

  lemma {:induction false} SumRangeZero(s: seq<int>, lo: int, hi: int)
    requires 0 <= lo <= hi <= |s| && forall i | lo <= i < hi :: s[i] == 0
    ensures SumRange(s, lo, hi) == 0
    decreases hi - lo
  {
    if lo < hi {
      SumRangeZero(s, lo, hi - 1);
    }
  }

  /** Incrementing one element adds one to every range sum that covers it. */
  lemma {:induction false} SumRangeBump(s: seq<int>, lo: int, hi: int, i: int)
    requires 0 <= lo <= hi <= |s| && 0 <= i < |s|
    ensures SumRange(s[i := s[i] + 1], lo, hi) == SumRange(s, lo, hi) + (if lo <= i < hi then 1 else 0)
    decreases hi - lo
  {
    if lo < hi {
      SumRangeBump(s, lo, hi - 1, i);
    }
  }

  /** The fixed shape of a histogram: the value range `[minVal, maxVal]` cut into `buckets`
      buckets of `width` values, the last one `lastRange` values wide. */
  datatype Geometry = Geometry(minVal: int, maxVal: int, buckets: int, width: int, range: int, lastRange: int)

  /** The shape the constructor promises: at least one bucket of at least one value, and a last
      bucket that takes the remainder of the range, so it is never narrower than the others. */
  predicate Shaped(g: Geometry) {
    1 <= g.buckets && 1 <= g.width && g.range == g.maxVal - g.minVal + 1 &&
    g.width * (g.buckets - 1) + g.lastRange == g.range && g.width <= g.lastRange
  }

  /** The constructor's arithmetic: `range = max - min + 1`, the requested bucket count capped
      at the range, the width by integer division and the last bucket's width. */
  function Layout(b: int, min: int, max: int): Geometry
    requires b >= 1 && min <= max
  {
    var range := max - min + 1;
    var buckets := if b < range then b else range;
    var width := range / buckets;
    Geometry(min, max, buckets, width, range, range - width * (buckets - 1))
  }

  /** Given `min <= max` and at least one bucket, the layout is well shaped, has no more
      buckets than were requested (so every bucket index fits the `heights` array) and its last
      bucket is narrower than one more bucket per bucket. */
  lemma LayoutShaped(b: int, min: int, max: int)
    requires b >= 1 && min <= max
    ensures var g := Layout(b, min, max);
      Shaped(g) && g.buckets <= b && (g.buckets == b || g.buckets == g.range) &&
      g.lastRange < g.width + g.buckets
  {
    var g := Layout(b, min, max);
    var r := g.range % g.buckets;
    assert g.range == g.width * g.buckets + r;
    assert g.width * (g.buckets - 1) == g.width * g.buckets - g.width;
    assert g.width * g.buckets > 0;
  }

  /** The bucket of an in-range value: `(v - min) / width`, capped at the last bucket (lines
      55-56 and 72). */
  function Bucket(g: Geometry, v: int): int
    requires Shaped(g) && g.minVal <= v <= g.maxVal
  {
    var q := (v - g.minVal) / g.width;
    if q >= g.buckets then g.buckets - 1 else q
  }

  /** A value falls in the bucket that covers it: bucket `i` starts at `min + i * width` and
      ends before the next one starts, the last bucket at `max`. */
  lemma BucketBounds(g: Geometry, v: int)
    requires Shaped(g) && g.minVal <= v <= g.maxVal
    ensures var i := Bucket(g, v); 0 <= i < g.buckets
    ensures var i := Bucket(g, v); g.minVal + i * g.width <= v
    ensures var i := Bucket(g, v); i < g.buckets - 1 ==> v < g.minVal + (i + 1) * g.width
    ensures var i := Bucket(g, v); i == g.buckets - 1 ==> g.maxVal - v < g.lastRange
  {
    var d, w := v - g.minVal, g.width;
    var q := d / w;
    DivMod(d, w);
    var i := Bucket(g, v);
    if q >= g.buckets {
      MulMono(w, g.buckets - 1, q);
    }
    assert w * i <= d;
    MulSucc(w, i);
  }

  /** Dafny's division and remainder by a positive divisor, on a natural number. */
  lemma DivMod(d: int, w: int)
    requires d >= 0 && w >= 1
    ensures d == w * (d / w) + d % w && 0 <= d % w < w && 0 <= d / w
  {
  }

  lemma MulSucc(w: int, i: int)
    ensures w * (i + 1) == w * i + w && (i + 1) * w == w * i + w && i * w == w * i
  {
  }

  lemma MulMono(w: int, a: int, b: int)
    requires w >= 0 && a <= b
    ensures w * a <= w * b
  {
    assert w * b - w * a == w * (b - a);
  }

  /** A positive factor can be cancelled from an inequality. */
  lemma MulCancel(w: int, x: int, y: int)
    requires w >= 1 && w * x <= w * y
    ensures x <= y
  {
    assert w * (x - y) == w * x - w * y;
  }

  /** `getEqual`: the bucket's height spread evenly over the values it covers. */
  function EqualCount(h: seq<int>, g: Geometry, idx: int): int
    requires Shaped(g) && 0 <= idx < g.buckets <= |h| && h[idx] >= 0
  {
    if idx != g.buckets - 1 then h[idx] / g.width else h[idx] / g.lastRange
  }

  /** `getGreater` in exact arithmetic: the share of the value's bucket above it, plus every
      later bucket. In a middle bucket the share is `width - 1 - (v - min) % width` values out
      of `width`; in the last bucket it is `max - v` values out of `lastRange`. */
  function GreaterCount(h: seq<int>, g: Geometry, v: int, idx: int): int
    requires Shaped(g) && g.minVal <= v <= g.maxVal && 0 <= idx < g.buckets <= |h| && h[idx] >= 0
  {
    if idx != g.buckets - 1 then
      (g.width - 1 - (v - g.minVal) % g.width) * h[idx] / g.width + SumRange(h, idx + 1, g.buckets)
    else (g.maxVal - v) * h[idx] / g.lastRange
  }

  /** The running sum of `getGreater`'s loop: `count += heights[i]` for `i` in `lo .. hi - 1`,
      each addition wrapping like a Java `int`. */
  function WrappedSum(h: seq<int>, lo: int, hi: int, count: int): int
    requires 0 <= lo <= hi <= |h|
    decreases hi - lo
  {
    if lo == hi then count else Wrap32(WrappedSum(h, lo, hi - 1, count) + h[hi - 1])
  }

  /** `getGreater` as written, in Java `int` arithmetic: the product of the share and the
      height wraps before the truncating division. */
  function GreaterAsWritten(h: seq<int>, g: Geometry, v: int, idx: int): int
    requires Shaped(g) && g.minVal <= v <= g.maxVal && 0 <= idx < g.buckets <= |h|
  {
    if idx != g.buckets - 1 then
      WrappedSum(h, idx + 1, g.buckets,
        JavaDiv(Wrap32((g.width - 1 - (v - g.minVal) % g.width) * h[idx]), g.width))
    else JavaDiv(Wrap32((g.maxVal - v) * h[idx]), g.lastRange)
  }

  /** The example histogram: two buckets over `[0, 2^21 - 1]`, 2^20 values wide, the first
      holding 3000 values and the second none. */
  const ExampleGeometry := Geometry(0, 0x1f_ffff, 2, 0x10_0000, 0x20_0000, 0x10_0000)
  const ExampleHeights := [3000, 0]

  /** It is the constructor's layout for two buckets over that range, and 0 falls in the
      first bucket. */
  lemma ExampleShape()
    ensures Layout(2, 0, 0x1f_ffff) == ExampleGeometry
    ensures Shaped(ExampleGeometry) && Bucket(ExampleGeometry, 0) == 0
  {
  }

  /** The product in `getGreater` overflows once a bucket is wide and tall enough: in the
      example, the count of the values greater than 0 comes out negative. */
  lemma GreaterOverflows()
    ensures Shaped(ExampleGeometry) && GreaterAsWritten(ExampleHeights, ExampleGeometry, 0, 0) == -1096
  {
    ExampleUnfolds();
    ExampleProduct();
    ExampleTail();
  }

  /** In exact arithmetic the same count is 2999: all but one of the 3000 values spread over
      the first bucket lie above 0. */
  lemma GreaterExact()
    ensures Shaped(ExampleGeometry) && GreaterCount(ExampleHeights, ExampleGeometry, 0, 0) == 2999
  {
    ExampleUnfolds();
    ExampleProduct();
    ExampleTail();
  }

  /** Both counts of the example, one step unfolded: the first bucket's share of its 3000
      values, then the second bucket. */
  lemma ExampleUnfolds()
    ensures Shaped(ExampleGeometry)
    ensures GreaterAsWritten(ExampleHeights, ExampleGeometry, 0, 0) ==
      WrappedSum(ExampleHeights, 1, 2, JavaDiv(Wrap32(0xf_ffff * 3000), 0x10_0000))
    ensures GreaterCount(ExampleHeights, ExampleGeometry, 0, 0) ==
      0xf_ffff * 3000 / 0x10_0000 + SumRange(ExampleHeights, 1, 2)
  {
    var w := 0x10_0000;
    assert ExampleHeights[0] == 3000;
    assert (w - 1 - 0 % w) * 3000 == 0xf_ffff * 3000;
  }

  /** The second bucket of the example is empty. */
  lemma ExampleTail()
    ensures WrappedSum(ExampleHeights, 1, 2, -1096) == -1096 && SumRange(ExampleHeights, 1, 2) == 0
  {
    assert ExampleHeights[1] == 0;
  }

  /** The example's product leaves the `int` range: it wraps to a negative number. */
  lemma ExampleProduct()
    ensures Wrap32(0xf_ffff * 3000) == -1149242296 && JavaDiv(-1149242296, 0x10_0000) == -1096
    ensures 0xf_ffff * 3000 / 0x10_0000 == 2999
  {
  }

  /** `a * h / w` rounded down, added to `h / w` rounded down, is at most `h` when `a < w`. */
  lemma FloorSum(h: int, w: int, a: int)
    requires h >= 0 && w >= 1 && 0 <= a < w
    ensures 0 <= h / w && 0 <= a * h / w && h / w + a * h / w <= h
  {
    var q1, q2 := h / w, a * h / w;
    MulMono(h, 0, a);
    DivMod(h, w);
    DivMod(a * h, w);
    MulMono(h, a + 1, w);
    assert w * (q1 + q2) == w * q1 + w * q2;
    assert h * (a + 1) == a * h + h && h * w == w * h;
    MulCancel(w, q1 + q2, h);
  }

  /** The bucket counts are consistent with the bucket's height and its neighbours: the
      values equal to `v` and the values above it in its bucket are at most its height, and the
      greater count lies between the later buckets' heights and those plus that share. */
  lemma CountBounds(h: seq<int>, g: Geometry, v: int)
    requires Shaped(g) && g.buckets <= |h| && g.minVal <= v <= g.maxVal
    requires forall i | 0 <= i < |h| :: h[i] >= 0
    ensures var idx := Bucket(g, v);
      0 <= EqualCount(h, g, idx) <= h[idx] &&
      SumRange(h, idx + 1, g.buckets) <= GreaterCount(h, g, v, idx) &&
      EqualCount(h, g, idx) + GreaterCount(h, g, v, idx) <= SumRange(h, idx, g.buckets)
  {
    var idx := Bucket(g, v);
    BucketBounds(g, v);
    SumRangeSplit(h, idx, idx + 1, g.buckets);
    assert SumRange(h, idx, idx + 1) == h[idx];
    SumRangeNonNeg(h, idx + 1, g.buckets);
    if idx != g.buckets - 1 {
      FloorSum(h[idx], g.width, g.width - 1 - (v - g.minVal) % g.width);
    } else {
      FloorSum(h[idx], g.lastRange, g.maxVal - v);
    }
  }

  /** Hence, over a histogram whose heights sum to `total`, the equal and greater counts of an
      in-range value are non-negative and together at most `total`, so `getLess` is
      non-negative too. */
  lemma CountsWithinTotal(h: seq<int>, g: Geometry, total: int, v: int)
    requires Shaped(g) && g.buckets <= |h| && g.minVal <= v <= g.maxVal
    requires forall i | 0 <= i < |h| :: h[i] >= 0
    requires total == SumRange(h, 0, |h|)
    ensures var idx := Bucket(g, v);
      0 <= EqualCount(h, g, idx) && 0 <= GreaterCount(h, g, v, idx) &&
      EqualCount(h, g, idx) + GreaterCount(h, g, v, idx) <= total
  {
    var idx := Bucket(g, v);
    CountBounds(h, g, v);
    SumRangeNonNeg(h, idx + 1, g.buckets);
    SumRangeSplit(h, 0, idx, g.buckets);
    SumRangeSplit(h, 0, g.buckets, |h|);
    SumRangeNonNeg(h, 0, idx);
    SumRangeNonNeg(h, g.buckets, |h|);
  }

  /** `estimateSelectivity`: a constant outside the range boundaries each operator checks,
      else the fraction of the tuples the bucket counts estimate. `LIKE` falls through the
      switch to -1. */
  function Selectivity(h: seq<int>, g: Geometry, total: int, op: PredicateOp, v: int): Estimate
    requires Shaped(g) && g.buckets <= |h| && forall i | 0 <= i < |h| :: h[i] >= 0
  {
    if op == Like then Fixed(-1.0)
    else if v < g.minVal || v > g.maxVal then
      match op
      case GreaterThan | GreaterThanOrEq => if v < g.minVal then Fixed(1.0) else Fixed(0.0)
      case LessThan | LessThanOrEq => if v > g.maxVal then Fixed(1.0) else Fixed(0.0)
      case Equals => Fixed(0.0)
      case _ => Fixed(1.0)
    else
      var idx := Bucket(g, v);
      BucketBounds(g, v);
      var eq, gt := EqualCount(h, g, idx), GreaterCount(h, g, v, idx);
      match op
      case GreaterThan => if v == g.maxVal then Fixed(0.0) else Fraction(gt)
      case GreaterThanOrEq => if v == g.minVal then Fixed(1.0) else Fraction(gt + eq)
      case LessThan => if v == g.minVal then Fixed(0.0) else Fraction(total - eq - gt)
      case LessThanOrEq => if v == g.maxVal then Fixed(1.0) else Fraction(total - eq - gt + eq)
      case Equals => Fraction(eq)
      case _ => OneMinusFraction(eq)
  }

  /** A count between 0 and the total is a fraction between 0 and 1. */
  lemma FractionInUnit(c: int, total: int)
    requires 0 <= c <= total && total > 0
    ensures 0.0 <= c as real / total as real <= 1.0
  {
    assert (c as real / total as real) * total as real == c as real;
  }

  /** Two counts that add up to the total give fractions that add up to 1. */
  lemma FractionsComplement(a: int, b: int, total: int)
    requires a + b == total && total > 0
    ensures a as real / total as real + b as real / total as real == 1.0
  {
    assert a as real / total as real + b as real / total as real == (a + b) as real / total as real;
  }

  /** Every estimate of a non-empty histogram is a probability, except `LIKE`'s -1. */
  lemma SelectivityInUnit(h: seq<int>, g: Geometry, total: int, op: PredicateOp, v: int)
    requires Shaped(g) && g.buckets <= |h| && forall i | 0 <= i < |h| :: h[i] >= 0
    requires total == SumRange(h, 0, |h|) && total > 0
    ensures op == Like ==> Ratio(Selectivity(h, g, total, op, v), total) == -1.0
    ensures op != Like ==> 0.0 <= Ratio(Selectivity(h, g, total, op, v), total) <= 1.0
  {
    if op != Like && g.minVal <= v <= g.maxVal {
      CountsWithinTotal(h, g, total, v);
      match Selectivity(h, g, total, op, v)
      case Fixed(_) =>
      case Fraction(c) => FractionInUnit(c, total);
      case OneMinusFraction(c) => FractionInUnit(c, total);
    }
  }

  /** The estimates of `>` and `<=` add up to 1 for every value. */
  lemma GreaterComplementsAtMost(h: seq<int>, g: Geometry, total: int, v: int)
    requires Shaped(g) && g.buckets <= |h| && forall i | 0 <= i < |h| :: h[i] >= 0
    requires total > 0
    ensures Ratio(Selectivity(h, g, total, GreaterThan, v), total) +
      Ratio(Selectivity(h, g, total, LessThanOrEq, v), total) == 1.0
  {
    if g.minVal <= v < g.maxVal {
      var idx := Bucket(g, v);
      var eq, gt := EqualCount(h, g, idx), GreaterCount(h, g, v, idx);
      FractionsComplement(gt, total - eq - gt + eq, total);
    }
  }

  /** The estimates of `>=` and `<` add up to 1 for every value. */
  lemma AtLeastComplementsLess(h: seq<int>, g: Geometry, total: int, v: int)
    requires Shaped(g) && g.buckets <= |h| && forall i | 0 <= i < |h| :: h[i] >= 0
    requires total > 0
    ensures Ratio(Selectivity(h, g, total, GreaterThanOrEq, v), total) +
      Ratio(Selectivity(h, g, total, LessThan, v), total) == 1.0
  {
    if g.minVal < v <= g.maxVal {
      var idx := Bucket(g, v);
      var eq, gt := EqualCount(h, g, idx), GreaterCount(h, g, v, idx);
      FractionsComplement(gt + eq, total - eq - gt, total);
    }
  }

  /** The estimates of `=` and `<>` add up to 1 for every value. */
  lemma EqualsComplementsNotEquals(h: seq<int>, g: Geometry, total: int, v: int)
    requires Shaped(g) && g.buckets <= |h| && forall i | 0 <= i < |h| :: h[i] >= 0
    requires total > 0
    ensures Ratio(Selectivity(h, g, total, Equals, v), total) +
      Ratio(Selectivity(h, g, total, NotEquals, v), total) == 1.0
  {
  }

  class IntHistogram {
    const heights: array<int>
    const maxVal: int
    const minVal: int
    const buckets: int
    var totalTuples: int
    const width: int
    const range: int
    const lastRange: int

    function Geo(): Geometry {
      Geometry(minVal, maxVal, buckets, width, range, lastRange)
    }

    /** The shape is the constructor's, the range fits an `int`, every bucket index fits the array, no height is
        negative, and the heights add up to the number of values added. */
    ghost predicate Valid()
      reads this, heights
    {
      Shaped(Geo()) && range <= MaxInt && buckets <= heights.Length &&
      (forall i | 0 <= i < heights.Length :: heights[i] >= 0) &&
      SumRange(heights[..], 0, heights.Length) == totalTuples
    }

    /** The constructor: the shape of `Layout`, and `heights` an array of the requested number
        of buckets, all empty. */
    constructor (b: int, min: Int32, max: Int32)
      requires b >= 1 && min <= max && max - min + 1 <= MaxInt
      ensures Valid() && fresh(heights) && heights.Length == b
      ensures Geo() == Layout(b, min, max) && totalTuples == 0
      ensures forall i | 0 <= i < b :: heights[i] == 0
    {
      var rng := max - min + 1;
      var bk := if b < rng then b else rng;
      minVal := min;
      maxVal := max;
      range := rng;
      buckets := bk;
      heights := new int[b](_ => 0);
      totalTuples := 0;
      width := rng / bk;
      lastRange := rng - (rng / bk) * (bk - 1);
      new;
      LayoutShaped(b, min, max);
      SumRangeZero(heights[..], 0, heights.Length);
    }

    /** `addValue`: a value outside `[minVal, maxVal]` is ignored; any other increments the
        height of its bucket and the tuple count, and nothing else. */
    method AddValue(v: Int32)
      requires Valid() && totalTuples < MaxInt
      modifies this, heights
      ensures Valid()
      ensures !(minVal <= v <= maxVal) ==> heights[..] == old(heights[..]) && totalTuples == old(totalTuples)
      ensures minVal <= v <= maxVal ==>
        var i := Bucket(Geo(), v);
        heights[..] == old(heights[..])[i := old(heights[i]) + 1] && totalTuples == old(totalTuples) + 1
    {
      if v < minVal || v > maxVal {
        return;
      }
      var idx := (v - minVal) / width;
      if idx >= buckets {
        idx := buckets - 1;
      }
      BucketBounds(Geo(), v);
      SumRangeBump(heights[..], 0, heights.Length, idx);
      heights[idx] := heights[idx] + 1;
      totalTuples := totalTuples + 1;
    }

    /** `getGreater`, for the bucket of an in-range value: the share of the bucket above the
        value, then the loop adding every later bucket. The count is at least the later
        buckets' tuples, and with `getEqual` at most all tuples. */
    method GetGreater(v: Int32, idx: int) returns (count: int)
      requires Valid() && minVal <= v <= maxVal && idx == Bucket(Geo(), v)
      ensures count == GreaterCount(heights[..], Geo(), v, idx)
      ensures SumRange(heights[..], idx + 1, buckets) <= count
      ensures count + EqualCount(heights[..], Geo(), idx) <= totalTuples
    {
      BucketBounds(Geo(), v);
      CountsWithinTotal(heights[..], Geo(), totalTuples, v);
      CountBounds(heights[..], Geo(), v);
      if idx != buckets - 1 {
        count := (width - 1 - (v - minVal) % width) * heights[idx] / width;
        ghost var share := count;
        for i := idx + 1 to buckets
          invariant count == share + SumRange(heights[..], idx + 1, i)
        {
          count := count + heights[i];
        }
      } else {
        count := (maxVal - v) * heights[idx] / lastRange;
      }
    }

    /** `getLess`: the tuples neither equal to nor greater than the value; never negative. */
    method GetLess(v: Int32, idx: int) returns (count: int)
      requires Valid() && minVal <= v <= maxVal && idx == Bucket(Geo(), v)
      ensures count == totalTuples - EqualCount(heights[..], Geo(), idx) - GreaterCount(heights[..], Geo(), v, idx)
      ensures 0 <= count <= totalTuples
    {
      BucketBounds(Geo(), v);
      CountsWithinTotal(heights[..], Geo(), totalTuples, v);
      var greater := GetGreater(v, idx);
      count := totalTuples - EqualCount(heights[..], Geo(), idx) - greater;
    }

    /** Line 72: `Math.min((v - minVal) / width, buckets - 1)` in Java `int` arithmetic,
        computed for every value; for an in-range value it is the value's bucket. */
    method BucketIndex(v: Int32) returns (idx: int)
      requires Valid()
      ensures minVal <= v <= maxVal ==> idx == Bucket(Geo(), v)
    {
      var q := JavaDiv(Wrap32(v - minVal), width);
      idx := if q < buckets - 1 then q else buckets - 1;
      if minVal <= v <= maxVal {
        assert Wrap32(v - minVal) == v - minVal;
        JavaDivProperties(v - minVal, width);
      }
    }

    /** `estimateSelectivity`: the bucket index is computed first, and only used for an
        in-range value. */
    method EstimateSelectivity(op: PredicateOp, v: Int32) returns (r: Estimate)
      requires Valid()
      ensures r == Selectivity(heights[..], Geo(), totalTuples, op, v)
    {
      var idx := BucketIndex(v);
      if minVal <= v <= maxVal {
        BucketBounds(Geo(), v);
      }
      match op {
        case GreaterThan =>
          if v < minVal {
            return Fixed(1.0);
          }
          if v >= maxVal {
            return Fixed(0.0);
          }
          var count := GetGreater(v, idx);
          return Fraction(count);
        case GreaterThanOrEq =>
          if v <= minVal {
            return Fixed(1.0);
          }
          if v > maxVal {
            return Fixed(0.0);
          }
          var count := GetGreater(v, idx);
          return Fraction(count + EqualCount(heights[..], Geo(), idx));
        case LessThan =>
          if v > maxVal {
            return Fixed(1.0);
          }
          if v <= minVal {
            return Fixed(0.0);
          }
          var count := GetLess(v, idx);
          return Fraction(count);
        case LessThanOrEq =>
          if v >= maxVal {
            return Fixed(1.0);
          }
          if v < minVal {
            return Fixed(0.0);
          }
          var count := GetLess(v, idx);
          return Fraction(count + EqualCount(heights[..], Geo(), idx));
        case Equals =>
          if v > maxVal || v < minVal {
            return Fixed(0.0);
          }
          return Fraction(EqualCount(heights[..], Geo(), idx));
        case NotEquals =>
          if v > maxVal || v < minVal {
            return Fixed(1.0);
          }
          return OneMinusFraction(EqualCount(heights[..], Geo(), idx));
        case Like =>
          return Fixed(-1.0);
      }
    }
  }
}
