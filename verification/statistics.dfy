/**
 The numeric summaries the latency endpoint takes of a region's column:
 the arithmetic mean, and the quantile by linear interpolation between the
 two closest ranks of the sorted column (the default method of the
 data-frame library the handler calls). Values are exact reals, so there is
 no rounding to model.
 */
module Statistics {

  function Sum(xs: seq<real>): real
  {
    if xs == [] then 0.0 else xs[0] + Sum(xs[1..])
  }

  /** The smallest value of a non-empty sequence. */
  function Min(xs: seq<real>): (m: real)
    requires |xs| > 0
    ensures m in xs
    ensures forall i :: 0 <= i < |xs| ==> m <= xs[i]
  {
    if |xs| == 1 then xs[0]
    else
      var rest := Min(xs[1..]);
      if xs[0] <= rest then xs[0] else rest
  }

  /** The largest value of a non-empty sequence. */
  function Max(xs: seq<real>): (m: real)
    requires |xs| > 0
    ensures m in xs
    ensures forall i :: 0 <= i < |xs| ==> xs[i] <= m
  {
    if |xs| == 1 then xs[0]
    else
      var rest := Max(xs[1..]);
      if rest <= xs[0] then xs[0] else rest
  }

  /** A lower bound of every element bounds the sum from below, scaled by the length. */
  lemma {:induction false} SumAtLeast(xs: seq<real>, lo: real)
    requires forall i :: 0 <= i < |xs| ==> lo <= xs[i]
    ensures (|xs| as real) * lo <= Sum(xs)
  {
    if xs != [] {
      SumAtLeast(xs[1..], lo);
      assert (|xs| as real) * lo == lo + (|xs[1..]| as real) * lo;
    }
  }

  /** An upper bound of every element bounds the sum from above, scaled by the length. */
  lemma {:induction false} SumAtMost(xs: seq<real>, hi: real)
    requires forall i :: 0 <= i < |xs| ==> xs[i] <= hi
    ensures Sum(xs) <= (|xs| as real) * hi
  {
    if xs != [] {
      SumAtMost(xs[1..], hi);
      assert (|xs| as real) * hi == hi + (|xs[1..]| as real) * hi;
    }
  }

  /** The arithmetic mean of a non-empty column: the one value that, taken
      once for every entry, adds up to the column's total. */
  function Mean(xs: seq<real>): (m: real)
    requires |xs| > 0
    ensures m * (|xs| as real) == Sum(xs)
  {
    var total, n := Sum(xs), |xs| as real;
    DivideTimes(total / n, total, n);
    total / n
  }

  /** The mean never leaves the range of the values it averages. */
  lemma MeanWithinRange(xs: seq<real>)
    requires |xs| > 0
    ensures Min(xs) <= Mean(xs) <= Max(xs)
  {
    MeanBetween(xs, Min(xs), Max(xs));
  }

  /** Bounds shared by every value of a non-empty column bound its total
      divided by its length. */
  lemma MeanBetween(xs: seq<real>, lo: real, hi: real)
    requires |xs| > 0
    requires forall i :: 0 <= i < |xs| ==> lo <= xs[i] <= hi
    ensures lo <= Sum(xs) / (|xs| as real) <= hi
  {
    SumAtLeast(xs, lo);
    SumAtMost(xs, hi);
    DivideBetween(Sum(xs), |xs| as real, lo, hi);
  }

  /** Dividing a total that lies between `n * lo` and `n * hi` by `n > 0` lands between `lo` and `hi`. */
  lemma DivideBetween(total: real, n: real, lo: real, hi: real)
    requires n > 0.0
    requires n * lo <= total <= n * hi
    ensures lo <= total / n <= hi
  {
    var m := total / n;
    assert m * n == total;
    if m < lo {
      MulMonotone(m, lo, n);
      assert false;
    }
    if m > hi {
      MulMonotone(hi, m, n);
      assert false;
    }
  }

  lemma MulNonNegative(a: real, b: real)
    requires 0.0 <= a && 0.0 <= b
    ensures 0.0 <= a * b
  {
  }

  lemma MulMonotone(a: real, b: real, c: real)
    requires a <= b && 0.0 <= c
    ensures a * c <= b * c
  {
    MulNonNegative(b - a, c);
    assert b * c - a * c == (b - a) * c;
  }

  /** The total of a concatenation is the sum of the totals. */
  lemma {:induction false} SumAppend(xs: seq<real>, ys: seq<real>)
    ensures Sum(xs + ys) == Sum(xs) + Sum(ys)
  {
    if xs == [] {
      assert xs + ys == ys;
    } else {
      assert (xs + ys)[1..] == xs[1..] + ys;
      SumAppend(xs[1..], ys);
    }
  }

  lemma DivideTimes(m: real, total: real, n: real)
    requires n > 0.0 && m == total / n
    ensures m * n == total
  {
  }

  /** The running mean: appending one value moves the mean to the weighted
      combination of the old mean, counted once per old value, and the new
      value. */
  lemma MeanAppend(xs: seq<real>, x: real)
    requires |xs| > 0
    ensures Mean(xs + [x]) == (Mean(xs) * (|xs| as real) + x) / ((|xs| + 1) as real)
  {
    SumAppend(xs, [x]);
    assert Sum([x]) == x;
  }

  /** Every mean of a column whose values are all equal is that value. */
  lemma MeanOfConstant(xs: seq<real>, c: real)
    requires |xs| > 0
    requires forall i :: 0 <= i < |xs| ==> xs[i] == c
    ensures Mean(xs) == c
  {
    MeanWithinRange(xs);
    assert Min(xs) in xs;
    assert Max(xs) in xs;
  }

  ghost predicate Sorted(xs: seq<real>)
  {
    forall i, j :: 0 <= i <= j < |xs| ==> xs[i] <= xs[j]
  }

  /** Inserts `x` into a sorted sequence, keeping it sorted. */
  function Insert(x: real, s: seq<real>): (r: seq<real>)
    requires Sorted(s)
    ensures Sorted(r)
    ensures multiset(r) == multiset(s) + multiset{x}
    ensures |r| == |s| + 1
    ensures r[0] == x || (|s| > 0 && r[0] == s[0])
  {
    if s == [] || x <= s[0] then [x] + s
    else
      var rest := Insert(x, s[1..]);
      assert s == [s[0]] + s[1..];
      [s[0]] + rest
  }

  /** Insertion sort: an ascending rearrangement of the input. */
  function Sort(xs: seq<real>): (r: seq<real>)
    ensures Sorted(r)
    ensures multiset(r) == multiset(xs)
    ensures |r| == |xs|
  {
    if xs == [] then []
    else
      assert xs == [xs[0]] + xs[1..];
      Insert(xs[0], Sort(xs[1..]))
  }

  /** The ends of a sorted rearrangement are the minimum and maximum of the original. */
  lemma SortedEnds(s: seq<real>, xs: seq<real>)
    requires Sorted(s) && multiset(s) == multiset(xs) && |xs| > 0
    ensures |s| == |xs|
    ensures s[0] == Min(xs) && s[|s| - 1] == Max(xs)
  {
    assert |s| == |multiset(s)| == |multiset(xs)| == |xs|;
    assert Min(xs) in multiset(s) && Max(xs) in multiset(s);
    assert s[0] in multiset(xs) && s[|s| - 1] in multiset(xs);
  }

  /** The fractional position, counted from zero, that the `q`-quantile of
      `n` sorted values sits at: `q * (n - 1)`. It stays inside the column. */
  function Rank(n: nat, q: real): (h: real)
    requires n > 0 && 0.0 <= q <= 1.0
    ensures 0.0 <= h <= (n - 1) as real
    ensures q == 0.0 ==> h == 0.0
    ensures q == 1.0 ==> h == (n - 1) as real
  {
    MulNonNegative(q, (n - 1) as real);
    MulMonotone(q, 1.0, (n - 1) as real);
    q * ((n - 1) as real)
  }

  /** A higher quantile sits at a position no earlier. */
  lemma RankMonotone(n: nat, q1: real, q2: real)
    requires n > 0 && 0.0 <= q1 <= q2 <= 1.0
    ensures Rank(n, q1) <= Rank(n, q2)
  {
    var c := (n - 1) as real;
    var h1, h2 := Rank(n, q1), Rank(n, q2);
    MulNonNegative(q2 - q1, c);
    assert h2 - h1 == (q2 - q1) * c;
  }

  /** The whole part of a position: the rank interpolation starts from. */
  function LowerRank(n: nat, h: real): (k: nat)
    requires n > 0 && 0.0 <= h <= (n - 1) as real
    ensures k < n
    ensures k as real <= h < k as real + 1.0
  {
    h.Floor
  }

  /** The rank interpolation moves towards: the next one, or the last one
      when the lower rank is already the last. */
  function UpperRank(n: nat, h: real): (k: nat)
    requires n > 0 && 0.0 <= h <= (n - 1) as real
    ensures LowerRank(n, h) <= k < n
    ensures h <= k as real
    ensures k <= LowerRank(n, h) + 1
    ensures LowerRank(n, h) + 1 < n ==> k == LowerRank(n, h) + 1
  {
    var lo := LowerRank(n, h);
    if lo + 1 < n then lo + 1 else lo
  }

  /** The point a fraction `t` of the way from `a` to `b`. */
  function Lerp(a: real, b: real, t: real): (v: real)
    requires a <= b && 0.0 <= t <= 1.0
    ensures a <= v <= b
    ensures t == 0.0 ==> v == a
    ensures t == 1.0 ==> v == b
  {
    MulNonNegative(t, b - a);
    MulMonotone(t, 1.0, b - a);
    a + t * (b - a)
  }

  /** A later point on the same segment is never smaller. */
  lemma LerpMonotone(a: real, b: real, t1: real, t2: real)
    requires a <= b && 0.0 <= t1 <= t2 <= 1.0
    ensures Lerp(a, b, t1) <= Lerp(a, b, t2)
  {
    var d := b - a;
    MulMonotone(t1, t2, d);
    assert Lerp(a, b, t1) == a + t1 * d;
    assert Lerp(a, b, t2) == a + t2 * d;
  }

  /** The value of a sorted column at fractional position `h`: the value at
      the lower rank, moved along the straight line towards the next value by
      the fractional part of `h`. It lies between those two values, and at a
      whole position it is the value stored there. */
  function Interpolate(s: seq<real>, h: real): (p: real)
    requires Sorted(s) && |s| > 0 && 0.0 <= h <= (|s| - 1) as real
    ensures s[LowerRank(|s|, h)] <= p <= s[UpperRank(|s|, h)]
    ensures h == LowerRank(|s|, h) as real ==> p == s[LowerRank(|s|, h)]
  {
    var lo := LowerRank(|s|, h);
    var hi := UpperRank(|s|, h);
    Lerp(s[lo], s[hi], h - lo as real)
  }

  /** Moving to a later position never gives a smaller value. */
  lemma InterpolateMonotone(s: seq<real>, h1: real, h2: real)
    requires Sorted(s) && |s| > 0
    requires 0.0 <= h1 <= h2 <= (|s| - 1) as real
    ensures Interpolate(s, h1) <= Interpolate(s, h2)
  {
    var n := |s|;
    var lo1, lo2 := LowerRank(n, h1), LowerRank(n, h2);
    var up1 := UpperRank(n, h1);
    assert lo1 <= lo2;
    if lo1 == lo2 {
      assert up1 == UpperRank(n, h2);
      LerpMonotone(s[lo1], s[up1], h1 - lo1 as real, h2 - lo1 as real);
    } else {
      assert up1 <= lo2;
      assert s[up1] <= s[lo2];
    }
  }

  /** Between two neighbouring ranks the value is the weighted average of
      the two stored values, weighted by the distance from each. */
  lemma InterpolateBetweenRanks(s: seq<real>, k: nat, t: real)
    requires Sorted(s) && k + 1 < |s| && 0.0 <= t < 1.0
    ensures Interpolate(s, k as real + t) == (1.0 - t) * s[k] + t * s[k + 1]
  {
    assert LowerRank(|s|, k as real + t) == k;
    assert UpperRank(|s|, k as real + t) == k + 1;
  }

  /** The rank a position rounds up to. */
  function CeilRank(n: nat, h: real): (k: nat)
    requires n > 0 && 0.0 <= h <= (n - 1) as real
    ensures k < n
    ensures k as real - 1.0 < h <= k as real
  {
    -((-h).Floor)
  }

  /** The textbook reading of linear interpolation: move from the value at
      the floor of the position towards the value at its ceiling, by the
      fractional part of the position. */
  function FloorCeilInterpolate(s: seq<real>, h: real): real
    requires |s| > 0 && 0.0 <= h <= (|s| - 1) as real
  {
    var f, c := LowerRank(|s|, h), CeilRank(|s|, h);
    s[f] + (h - f as real) * (s[c] - s[f])
  }

  /** Interpolating towards the next rank clipped to the last one gives the
      same value as interpolating between the floor and ceiling ranks. */
  lemma InterpolateIsFloorCeil(s: seq<real>, h: real)
    requires Sorted(s) && |s| > 0 && 0.0 <= h <= (|s| - 1) as real
    ensures Interpolate(s, h) == FloorCeilInterpolate(s, h)
  {
    var f, c := LowerRank(|s|, h), CeilRank(|s|, h);
    if h == f as real {
      assert c == f;
    } else {
      assert c == f + 1;
      assert UpperRank(|s|, h) == c;
    }
  }

  /** The `q`-quantile of a sorted non-empty column by linear interpolation:
      the column read at position `q * (n - 1)`. It never leaves the range
      from the first to the last value. */
  function Percentile(s: seq<real>, q: real): (p: real)
    requires Sorted(s) && |s| > 0 && 0.0 <= q <= 1.0
    ensures s[0] <= p <= s[|s| - 1]
  {
    var h := Rank(|s|, q);
    var p := Interpolate(s, h);
    assert s[0] <= s[LowerRank(|s|, h)] && s[UpperRank(|s|, h)] <= s[|s| - 1];
    p
  }

  /** The quantile at 0 is the first value and the quantile at 1 the last. */
  lemma PercentileExtremes(s: seq<real>)
    requires Sorted(s) && |s| > 0
    ensures Percentile(s, 0.0) == s[0]
    ensures Percentile(s, 1.0) == s[|s| - 1]
  {
    assert LowerRank(|s|, 0.0) == 0;
    assert LowerRank(|s|, (|s| - 1) as real) == |s| - 1;
  }

  /** Asking for a higher quantile never gives a smaller value. */
  lemma PercentileMonotone(s: seq<real>, q1: real, q2: real)
    requires Sorted(s) && |s| > 0
    requires 0.0 <= q1 <= q2 <= 1.0
    ensures Percentile(s, q1) <= Percentile(s, q2)
  {
    RankMonotone(|s|, q1, q2);
    InterpolateMonotone(s, Rank(|s|, q1), Rank(|s|, q2));
  }

  /** The quantile the handler reports: sort the column, then interpolate. */
  function SortedPercentile(xs: seq<real>, q: real): (p: real)
    requires |xs| > 0 && 0.0 <= q <= 1.0
    ensures Min(xs) <= p <= Max(xs)
    ensures |xs| == 1 ==> p == xs[0]
  {
    var s := Sort(xs);
    SortedEnds(s, xs);
    assert Sorted(s);
    Percentile(s, q)
  }
}
