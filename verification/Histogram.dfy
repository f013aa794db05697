/** The benchmark histogram, over exact reals. */
module Histogram {

  /** Multiplication under a name, so that a proof can treat a product as a symbol and
      use only the laws below. */
  function Times(a: real, b: real): (r: real)
  {
    a * b
  }

  lemma TimesOrder(a: real, b: real, m: real)
    requires m > 0.0
    ensures a <= b ==> Times(a, m) <= Times(b, m)
    ensures a < b ==> Times(a, m) < Times(b, m)
  {}

  lemma TimesAdd(a: real, b: real, m: real)
    ensures Times(a + b, m) == Times(a, m) + Times(b, m)
    ensures Times(m, a + b) == Times(m, a) + Times(m, b)
    ensures Times(1.0, m) == m && Times(0.0, m) == 0.0
  {}

  lemma TimesSwap(a: real, b: real, c: real)
    ensures Times(a, b) == Times(b, a)
    ensures Times(Times(a, b), c) == Times(a, Times(b, c)) == Times(Times(a, c), b)
  {}

  lemma TimesDivide(v: real, m: real)
    requires m > 0.0
    ensures Times(v / m, m) == v
  {}

  lemma SquareOfDifference(x: real, c: real)
    ensures Times(x - c, x - c) == Times(x, x) - 2.0 * Times(c, x) + Times(c, c)
  {}

  lemma Quotient(a: real, b: real, r: real)
    requires b > 0.0 && a == Times(r, b)
    ensures a / b == r
  {}

  /** What is used of the natural logarithm: a strictly increasing function that turns
      products into sums. */
  ghost predicate IsLog(log: real -> real)
  {
    && (forall x: real, y: real :: x > 0.0 && y > 0.0 ==> log(Times(x, y)) == log(x) + log(y))
    && (forall x: real, y: real :: 0.0 < x < y ==> log(x) < log(y))
  }

  function Pow(base: real, k: nat): (r: real)
    requires base > 0.0
    ensures r > 0.0
  {
    if k == 0 then 1.0 else Times(Pow(base, k - 1), base)
  }

  lemma LogMul(log: real -> real, x: real, y: real)
    requires IsLog(log) && x > 0.0 && y > 0.0
    ensures log(Times(x, y)) == log(x) + log(y)
  {}

  lemma LogOrder(log: real -> real, x: real, y: real)
    requires IsLog(log) && x > 0.0 && y > 0.0
    ensures log(x) < log(y) <==> x < y
  {}

  lemma LogPositive(log: real -> real, x: real)
    requires IsLog(log) && x >= 1.0
    ensures log(1.0) == 0.0 && log(x) >= 0.0
    ensures x > 1.0 ==> log(x) > 0.0
  {
    hide IsLog, Times;
    LogMul(log, 1.0, 1.0);
    TimesAdd(0.0, 0.0, 1.0);
    LogOrder(log, 1.0, x);
    LogOrder(log, x, 1.0);
  }

  lemma {:induction false} LogPow(log: real -> real, base: real, k: nat)
    requires IsLog(log) && base > 0.0
    ensures log(Pow(base, k)) == Times(k as real, log(base))
  {
    hide IsLog, Times;
    if k == 0 {
      LogPositive(log, 1.0);
      TimesAdd(0.0, 0.0, log(base));
    } else {
      LogPow(log, base, k - 1);
      LogMul(log, Pow(base, k - 1), base);
      TimesAdd((k - 1) as real, 1.0, log(base));
      assert k as real == (k - 1) as real + 1.0;
    }
  }

  function BucketFor(log: real -> real, multiplier: real, value: real): (k: int)
    requires log(multiplier) != 0.0
  {
    (log(value) / log(multiplier)).Floor
  }

  /** The floor of a quotient. */
  lemma FloorDivides(v: real, m: real)
    requires m > 0.0
    ensures var k := (v / m).Floor; Times(k as real, m) <= v < Times((k + 1) as real, m)
    ensures v >= 0.0 ==> (v / m).Floor >= 0
  {
    hide Times;
    var k := (v / m).Floor;
    TimesDivide(v, m);
    TimesOrder(k as real, v / m, m);
    TimesOrder(v / m, (k + 1) as real, m);
    TimesOrder(v / m, 0.0, m);
    TimesAdd(0.0, 0.0, m);
  }

  /** A value lies in the half-open interval of its bucket. */
  lemma BucketSpan(log: real -> real, multiplier: real, value: real)
    requires IsLog(log) && multiplier > 1.0 && value >= 1.0
    ensures log(multiplier) > 0.0
    ensures var k := BucketFor(log, multiplier, value);
      k >= 0 && Pow(multiplier, k) <= value < Pow(multiplier, k + 1)
  {
    hide IsLog, Pow, Times;
    LogPositive(log, multiplier);
    LogPositive(log, value);
    FloorDivides(log(value), log(multiplier));
    var k := BucketFor(log, multiplier, value);
    LogPow(log, multiplier, k);
    LogPow(log, multiplier, k + 1);
    LogOrder(log, value, Pow(multiplier, k));
    LogOrder(log, value, Pow(multiplier, k + 1));
  }

  /** So a value no greater than the maximum has a bucket no later than the last. */
  lemma BucketMonotone(log: real -> real, multiplier: real, a: real, b: real)
    requires IsLog(log) && multiplier > 1.0 && 1.0 <= a <= b
    ensures log(multiplier) > 0.0 && BucketFor(log, multiplier, a) <= BucketFor(log, multiplier, b)
  {
    hide IsLog, Times;
    LogPositive(log, multiplier);
    LogOrder(log, b, a);
    var m := log(multiplier);
    TimesDivide(log(a), m);
    TimesDivide(log(b), m);
    TimesOrder(log(b) / m, log(a) / m, m);
  }

  // ---- statistics ----

  function Sum(values: seq<real>): (r: real)
  {
    if values == [] then 0.0 else Sum(values[..|values| - 1]) + values[|values| - 1]
  }

  function SumOfSquares(values: seq<real>): (r: real)
  {
    if values == [] then 0.0
    else SumOfSquares(values[..|values| - 1]) + Times(values[|values| - 1], values[|values| - 1])
  }

  /** The sum of squared distances from a point. */
  function Spread(values: seq<real>, center: real): (r: real)
    ensures r >= 0.0
  {
    if values == [] then 0.0
    else
      var d := values[|values| - 1] - center;
      Spread(values[..|values| - 1], center) + Times(d, d)
  }

  lemma {:induction false} SpreadExpanded(values: seq<real>, c: real)
    ensures Spread(values, c)
         == SumOfSquares(values) - 2.0 * Times(c, Sum(values)) + Times(|values| as real, Times(c, c))
  {
    hide Times;
    if values == [] {
      TimesSwap(c, 0.0, 0.0);
      TimesAdd(0.0, 0.0, c);
      TimesAdd(0.0, 0.0, Times(c, c));
    } else {
      var x, init := values[|values| - 1], values[..|values| - 1];
      SpreadExpanded(init, c);
      SquareOfDifference(x, c);
      TimesAdd(Sum(init), x, c);
      TimesAdd(|init| as real, 1.0, Times(c, c));
      assert |values| as real == |init| as real + 1.0;
    }
  }

  /** The formula of `variance` is the mean squared distance from the mean. */
  lemma VarianceMeaning(values: seq<real>)
    requires values != []
    ensures var n, s, q := |values| as real, Sum(values), SumOfSquares(values);
      Times(n, n) > 0.0 && (Times(q, n) - Times(s, s)) / Times(n, n) == Spread(values, s / n) / n
  {
    hide Times, Sum, SumOfSquares, Spread;
    var n, s, q := |values| as real, Sum(values), SumOfSquares(values);
    var c := s / n;
    var p := Spread(values, c);
    SpreadExpanded(values, c);
    TimesDivide(s, n);
    TimesSwap(c, n, c);
    TimesSwap(n, c, c);
    TimesSwap(s, c, n);
    TimesSwap(c, s, n);
    assert p == q - Times(c, s);
    TimesAdd(p, Times(c, s), n);
    assert Times(p, n) == Times(q, n) - Times(s, s);
    TimesDivide(p, n);
    TimesSwap(p / n, n, n);
    TimesOrder(0.0, n, n);
    TimesAdd(0.0, 0.0, n);
    Quotient(Times(q, n) - Times(s, s), Times(n, n), p / n);
  }

  lemma NonNegative(a: real, b: real)
    requires a >= 0.0 && b > 0.0
    ensures a / b >= 0.0
  {
    hide Times;
    TimesDivide(a, b);
    TimesOrder(a / b, 0.0, b);
    TimesAdd(0.0, 0.0, b);
  }

  /** The index that `add` uses; -1 stands for the values without a logarithm. */
  function Index(log: real -> real, multiplier: real, value: real): (k: int)
    requires log(multiplier) != 0.0
  {
    if value <= 0.0 then -1 else BucketFor(log, multiplier, value)
  }

  lemma IndexIsBucket(log: real -> real, multiplier: real, value: real)
    requires log(multiplier) != 0.0 && value > 0.0
    ensures Index(log, multiplier, value) == BucketFor(log, multiplier, value)
  {}

  /** A value has one of the first `size` buckets exactly if it is at least 1 and below the
      start of the bucket after them. */
  lemma IndexInRange(log: real -> real, multiplier: real, value: real, size: nat)
    requires IsLog(log) && multiplier > 1.0
    ensures log(multiplier) > 0.0
    ensures 0 <= Index(log, multiplier, value) < size <==> 1.0 <= value < Pow(multiplier, size)
  {
    hide IsLog, Pow, Times;
    LogPositive(log, multiplier);
    if value > 0.0 {
      var m, v := log(multiplier), log(value);
      LogPositive(log, 1.0);
      LogOrder(log, value, 1.0);
      LogPow(log, multiplier, size);
      LogOrder(log, value, Pow(multiplier, size));
      TimesDivide(v, m);
      TimesOrder(v / m, size as real, m);
      TimesOrder(size as real, v / m, m);
      TimesOrder(v / m, 0.0, m);
      TimesOrder(0.0, v / m, m);
      TimesAdd(0.0, 0.0, m);
    }
  }

  function InBucket(log: real -> real, multiplier: real, values: seq<real>, k: int): (n: nat)
    requires log(multiplier) != 0.0
  {
    if values == [] then 0
    else
      InBucket(log, multiplier, values[..|values| - 1], k) +
      if Index(log, multiplier, values[|values| - 1]) == k then 1 else 0
  }

  /** How many values have one of the first `size` buckets. */
  function Placed(log: real -> real, multiplier: real, values: seq<real>, size: nat): (n: nat)
    requires log(multiplier) != 0.0
    ensures n <= |values|
  {
    if values == [] then 0
    else
      Placed(log, multiplier, values[..|values| - 1], size) +
      if 0 <= Index(log, multiplier, values[|values| - 1]) < size then 1 else 0
  }

  lemma {:induction false} AllPlaced(log: real -> real, multiplier: real, values: seq<real>, size: nat)
    requires log(multiplier) != 0.0
    ensures Placed(log, multiplier, values, size) == |values| <==>
      forall i :: 0 <= i < |values| ==> 0 <= Index(log, multiplier, values[i]) < size
  {
    hide Index;
    if values == [] {
    } else {
      var init := values[..|values| - 1];
      AllPlaced(log, multiplier, init, size);
      assert forall i :: 0 <= i < |init| ==> init[i] == values[i];
    }
  }

  /** One more value. */
  lemma Snoc(log: real -> real, multiplier: real, values: seq<real>, v: real, size: nat)
    requires log(multiplier) != 0.0
    ensures Sum(values + [v]) == Sum(values) + v
    ensures SumOfSquares(values + [v]) == SumOfSquares(values) + Times(v, v)
    ensures Placed(log, multiplier, values + [v], size) ==
      Placed(log, multiplier, values, size) + if 0 <= Index(log, multiplier, v) < size then 1 else 0
    ensures forall k ::
      (InBucket(log, multiplier, values + [v], k) ==
       InBucket(log, multiplier, values, k) + (if Index(log, multiplier, v) == k then 1 else 0))
  {
    assert (values + [v])[..|values|] == values;
  }

  function Total(counts: seq<nat>): (n: nat)
  {
    if counts == [] then 0 else Total(counts[..|counts| - 1]) + counts[|counts| - 1]
  }

  lemma {:induction false} TotalIncrement(counts: seq<nat>, k: nat)
    requires k < |counts|
    ensures Total(counts[k := counts[k] + 1]) == Total(counts) + 1
  {
    var n := |counts| - 1;
    var counts' := counts[k := counts[k] + 1];
    if k == n {
      assert counts'[..n] == counts[..n];
    } else {
      TotalIncrement(counts[..n], k);
      assert counts'[..n] == counts[..n][k := counts[..n][k] + 1];
    }
  }

  lemma {:induction false} TotalZero(counts: seq<nat>)
    requires forall i :: 0 <= i < |counts| ==> counts[i] == 0
    ensures Total(counts) == 0
  {
    if counts == [] {
    } else {
      TotalZero(counts[..|counts| - 1]);
    }
  }

  /** lo and hi are the least and the greatest of the values and the initial ones. */
  ghost predicate Extremes(values: seq<real>, lo: real, hi: real, limit: real)
  {
    && (forall i :: 0 <= i < |values| ==> lo <= values[i] <= hi)
    && lo <= limit && (lo == limit || lo in values)
    && 0.0 <= hi && (hi == 0.0 || hi in values)
  }

  lemma ExtremesStep(values: seq<real>, lo: real, hi: real, limit: real, v: real)
    requires Extremes(values, lo, hi, limit)
    ensures Extremes(values + [v], if v < lo then v else lo, if v > hi then v else hi, limit)
  {
    assert v in values + [v];
    assert forall x :: x in values ==> x in values + [v];
  }

  class Histogram {
    const log: real -> real
    const multiplier: real
    const maxPossible: real
    var sum: real
    var sumOfSquares: real
    var count: nat
    var minSeen: real
    var maxSeen: real
    const buckets: array<nat>
    ghost var values: seq<real>

    ghost predicate Valid()
      reads this, buckets
    {
      && IsLog(log) && multiplier > 1.0 && maxPossible > 1.0 && log(multiplier) > 0.0
      && sum == Sum(values) && sumOfSquares == SumOfSquares(values) && count == |values|
      && buckets.Length == BucketFor(log, multiplier, maxPossible) + 1
      && (forall k :: 0 <= k < buckets.Length ==> buckets[k] == InBucket(log, multiplier, values, k))
      && Total(buckets[..]) == Placed(log, multiplier, values, buckets.Length)
      && Extremes(values, minSeen, maxSeen, maxPossible)
    }

    constructor (log: real -> real, resolution: real, maxPossible: real)
      requires IsLog(log) && resolution > 0.0 && maxPossible > 1.0
      ensures Valid() && values == [] && this.log == log
      ensures multiplier == 1.0 + resolution && this.maxPossible == maxPossible && fresh(buckets)
    {
      this.log, this.maxPossible := log, maxPossible;
      multiplier := 1.0 + resolution;
      sum, sumOfSquares, count, values := 0.0, 0.0, 0, [];
      minSeen, maxSeen := maxPossible, 0.0;
      BucketSpan(log, 1.0 + resolution, maxPossible);
      var cells := new nat[BucketFor(log, 1.0 + resolution, maxPossible) + 1];
      for i := 0 to cells.Length
        invariant forall k :: 0 <= k < i ==> cells[k] == 0
      {
        cells[i] := 0;
      }
      TotalZero(cells[..]);
      buckets := cells;
    }

    /** Any value is counted; one whose index is out of range disturbs no bucket. */
    method Add(value: real)
      requires Valid()
      modifies this, buckets
      ensures Valid() && values == old(values) + [value]
    {
      hide IsLog, Total, Pow, BucketFor, Times, Extremes, Sum, SumOfSquares, InBucket, Placed, Index;
      Snoc(log, multiplier, values, value, buckets.Length);
      ExtremesStep(values, minSeen, maxSeen, maxPossible, value);
      sum := sum + value;
      sumOfSquares := sumOfSquares + Times(value, value);
      count := count + 1;
      if value < minSeen { minSeen := value; }
      if value > maxSeen { maxSeen := value; }
      values := values + [value];
      var k := Index(log, multiplier, value);
      if 0 <= k < buckets.Length {
        TotalIncrement(buckets[..], k);
        buckets[k] := buckets[k] + 1;
        assert buckets[..] == old(buckets[..])[k := old(buckets[k]) + 1];
      }
    }

    method Variance() returns (r: real)
      requires Valid()
      ensures r >= 0.0
      ensures count > 0 ==> r == Spread(values, sum / count as real) / count as real
    {
      hide IsLog, Total, Pow, BucketFor, InBucket, Sum, SumOfSquares, Spread, Times;
      if count == 0 { return 0.0; }
      var n := count as real;
      VarianceMeaning(values);
      r := (Times(sumOfSquares, n) - Times(sum, sum)) / Times(n, n);
      NonNegative(Spread(values, sum / n), n);
    }
  }

  /** The buckets add up to the count if and only if every value was at least 1 and below
      the start of the bucket after the last; values from 1 up to the maximum are. */
  lemma BucketsAddUp(h: Histogram)
    requires h.Valid()
    ensures Total(h.buckets[..]) == h.count <==>
      forall i :: 0 <= i < |h.values| ==> 1.0 <= h.values[i] < Pow(h.multiplier, h.buckets.Length)
    ensures (forall i :: 0 <= i < |h.values| ==> 1.0 <= h.values[i] <= h.maxPossible) ==>
      Total(h.buckets[..]) == h.count
  {
    hide IsLog, Pow, Index, BucketFor, Placed;
    AllPlaced(h.log, h.multiplier, h.values, h.buckets.Length);
    forall i | 0 <= i < |h.values| && 1.0 <= h.values[i] <= h.maxPossible
      ensures 1.0 <= h.values[i] < Pow(h.multiplier, h.buckets.Length)
    {
      BucketSpan(h.log, h.multiplier, h.values[i]);
      BucketMonotone(h.log, h.multiplier, h.values[i], h.maxPossible);
      IndexIsBucket(h.log, h.multiplier, h.values[i]);
      IndexInRange(h.log, h.multiplier, h.values[i], h.buckets.Length);
    }
    forall i | 0 <= i < |h.values|
      ensures 0 <= Index(h.log, h.multiplier, h.values[i]) < h.buckets.Length <==>
              1.0 <= h.values[i] < Pow(h.multiplier, h.buckets.Length)
    {
      IndexInRange(h.log, h.multiplier, h.values[i], h.buckets.Length);
    }
  }
}
