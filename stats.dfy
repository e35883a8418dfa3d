/** The descriptive statistics the toolkit applies to a column of readings,
    over exact reals: mean, population and sample variance, the standardised
    score of `scipy.stats.zscore`, the median of pandas, and `round`.
    Square roots are not computed here: the standard deviation enters as a
    parameter `sd` whose square is the variance. */
module Stats {
  import opened Seqs

  function Sum(xs: seq<real>): real
  {
    if |xs| == 0 then 0.0 else xs[0] + Sum(xs[1..])
  }

  function Mean(xs: seq<real>): real
    requires |xs| > 0
  {
    Sum(xs) / |xs| as real
  }

  /** Multiplication behind a name, so that a square `Mul(x, x)` is matched
      as a term rather than rewritten by the solver's arithmetic. */
  function Mul(a: real, b: real): real
  {
    a * b
  }

  function Sq(x: real): real
  {
    Mul(x, x)
  }

  lemma MulPositive(a: real, b: real)
    requires a > 0.0 && b > 0.0
    ensures Mul(a, b) > 0.0
  {
  }

  lemma SqPositive(d: real)
    requires d != 0.0
    ensures Sq(d) > 0.0
  {
    if d > 0.0 {
      MulPositive(d, d);
    } else {
      assert Mul(d, d) == Mul(-d, -d);
      MulPositive(-d, -d);
    }
  }

  lemma SqNonNegative(d: real)
    ensures Sq(d) >= 0.0
  {
    if d != 0.0 {
      SqPositive(d);
    }
  }

  /** Sum of squared deviations of `xs` from `m`. */
  function SumSqDev(xs: seq<real>, m: real): (r: real)
    ensures r >= 0.0
  {
    if |xs| == 0 then 0.0
    else
      SqNonNegative(xs[0] - m);
      Sq(xs[0] - m) + SumSqDev(xs[1..], m)
  }

  /** Variance with `ddof=0`, the one `zscore` divides by. */
  function PopVariance(xs: seq<real>): (v: real)
    requires |xs| > 0
    ensures v >= 0.0
  {
    SumSqDev(xs, Mean(xs)) / |xs| as real
  }

  /** Variance with `ddof=1`, the one pandas' `std` uses. */
  function SampleVariance(xs: seq<real>): (v: real)
    requires |xs| > 1
    ensures v >= 0.0
  {
    SumSqDev(xs, Mean(xs)) / (|xs| - 1) as real
  }

  /** The standard score of one reading `x` against mean `m` and deviation `sd`. */
  function Score(x: real, m: real, sd: real): real
    requires sd != 0.0
  {
    (x - m) / sd
  }

  /** `(x - m) / sd` for every reading `x`. */
  function Standardize(xs: seq<real>, m: real, sd: real): (zs: seq<real>)
    requires sd != 0.0
    ensures |zs| == |xs|
  {
    if |xs| == 0 then [] else [(xs[0] - m) / sd] + Standardize(xs[1..], m, sd)
  }

  function Squares(xs: seq<real>): (ys: seq<real>)
    ensures |ys| == |xs|
  {
    if |xs| == 0 then [] else [Sq(xs[0])] + Squares(xs[1..])
  }

  lemma {:induction false} StandardizeAt(xs: seq<real>, m: real, sd: real, i: nat)
    requires sd != 0.0 && i < |xs|
    ensures Standardize(xs, m, sd)[i] == (xs[i] - m) / sd
    decreases |xs|
  {
    if i > 0 {
      StandardizeAt(xs[1..], m, sd, i - 1);
    }
  }

  lemma DivAdd(a: real, b: real, d: real)
    requires d != 0.0
    ensures a / d + b / d == (a + b) / d
  {
    var x, y := a / d, b / d;
    assert x * d == a && y * d == b;
    assert (x + y) * d == a + b;
  }

  lemma DivMul(a: real, d: real)
    requires d != 0.0
    ensures (a / d) * d == a
  {
  }

  lemma CancelFactor(a: real, b: real, v: real, p: real)
    requires v != 0.0 && Mul(a, v) == p && Mul(b, v) == p
    ensures a == b
  {
    assert (a - b) * v == 0.0;
  }

  lemma Distrib(a: real, b: real, c: real)
    ensures Mul(a + b, c) == Mul(a, c) + Mul(b, c)
  {
  }

  lemma ScaledSquare(a: real, d: real)
    requires d != 0.0
    ensures Mul(Sq(a / d), Sq(d)) == Sq(a)
  {
    var z := a / d;
    assert (z * z) * (d * d) == (z * d) * (z * d);
    DivMul(a, d);
  }

  lemma {:induction false} SumStandardize(xs: seq<real>, m: real, sd: real)
    requires sd != 0.0
    ensures Sum(Standardize(xs, m, sd)) == (Sum(xs) - |xs| as real * m) / sd
    decreases |xs|
  {
    if |xs| > 0 {
      SumStandardize(xs[1..], m, sd);
      var n := |xs| as real;
      assert Standardize(xs, m, sd)[1..] == Standardize(xs[1..], m, sd);
      DivAdd(xs[0] - m, Sum(xs[1..]) - (n - 1.0) * m, sd);
      assert (xs[0] - m) + (Sum(xs[1..]) - (n - 1.0) * m) == Sum(xs) - n * m;
    }
  }

  lemma {:induction false} SumSquaresStandardize(xs: seq<real>, m: real, sd: real)
    requires sd != 0.0
    ensures Mul(Sum(Squares(Standardize(xs, m, sd))), Sq(sd)) == SumSqDev(xs, m)
    decreases |xs|
  {
    if |xs| > 0 {
      SumSquaresStandardize(xs[1..], m, sd);
      var zs := Standardize(xs, m, sd);
      assert zs[0] == (xs[0] - m) / sd && zs[1..] == Standardize(xs[1..], m, sd);
      assert Squares(zs)[1..] == Squares(zs[1..]);
      assert Squares(zs) == [Sq(zs[0])] + Squares(zs[1..]);
      ScaledSquare(xs[0] - m, sd);
      Distrib(Sq(zs[0]), Sum(Squares(zs[1..])), Sq(sd));
    }
  }

  /** Standardised scores sum to zero: their mean is 0. */
  lemma ZScoresSumToZero(xs: seq<real>, sd: real)
    requires |xs| > 0 && sd != 0.0
    ensures Sum(Standardize(xs, Mean(xs), sd)) == 0.0
  {
    SumStandardize(xs, Mean(xs), sd);
    var n := |xs| as real;
    assert n * (Sum(xs) / n) == Sum(xs);
  }

  lemma ScaleBack(v: real, ss: real, n: real)
    requires n > 0.0 && v == ss / n
    ensures Mul(n, v) == ss
  {
  }

  /** With `n * Sq(sd)` the sum of squared deviations from `m`, the squared
      scores sum to `n`. */
  lemma UnitVarianceAt(xs: seq<real>, m: real, sd: real)
    requires sd > 0.0 && Mul(|xs| as real, Sq(sd)) == SumSqDev(xs, m)
    ensures Sum(Squares(Standardize(xs, m, sd))) == |xs| as real
  {
    SumSquaresStandardize(xs, m, sd);
    SqPositive(sd);
    CancelFactor(Sum(Squares(Standardize(xs, m, sd))), |xs| as real, Sq(sd), SumSqDev(xs, m));
  }

  lemma UnitVarianceOver(xs: seq<real>, m: real, sd: real)
    requires |xs| > 0 && sd > 0.0 && Sq(sd) == SumSqDev(xs, m) / |xs| as real
    ensures Sum(Squares(Standardize(xs, m, sd))) == |xs| as real
  {
    ScaleBack(Sq(sd), SumSqDev(xs, m), |xs| as real);
    UnitVarianceAt(xs, m, sd);
  }

  /** With `sd` the population standard deviation, the squared scores sum to
      the number of readings, so they average to 1: unit variance. */
  lemma ZScoresUnitVariance(xs: seq<real>, sd: real)
    requires |xs| > 0 && sd > 0.0 && Sq(sd) == PopVariance(xs)
    ensures Sum(Squares(Standardize(xs, Mean(xs), sd))) == |xs| as real
  {
    UnitVarianceOver(xs, Mean(xs), sd);
  }

  /** Standardising by a positive deviation keeps the order of the readings,
      and a reading equal to the mean scores 0. */
  lemma ZScoresMonotone(xs: seq<real>, sd: real, i: nat, j: nat)
    requires i < |xs| && j < |xs| && sd > 0.0
    ensures xs[i] <= xs[j] ==> Standardize(xs, Mean(xs), sd)[i] <= Standardize(xs, Mean(xs), sd)[j]
    ensures xs[i] == Mean(xs) ==> Standardize(xs, Mean(xs), sd)[i] == 0.0
  {
    var m := Mean(xs);
    StandardizeAt(xs, m, sd, i);
    StandardizeAt(xs, m, sd, j);
    if xs[i] <= xs[j] {
      assert (xs[j] - m) / sd - (xs[i] - m) / sd == (xs[j] - xs[i]) / sd;
    }
  }

  function RealLe(a: real, b: real): bool
  {
    a <= b
  }

  lemma RealLeIsTotalPreorder()
    ensures TotalPreorder(RealLe)
  {
  }

  /** pandas' `median`: the middle reading, or the mean of the two middle
      readings; `None` (NaN) for no readings. */
  function Median(xs: seq<real>): (m: Option<real>)
    ensures m.Some? <==> |xs| > 0
  {
    if |xs| == 0 then None else Some(Middle(SortBy(xs, RealLe)))
  }

  /** The middle entry of `s`, or the mean of its two middle entries. */
  function Middle(s: seq<real>): real
    requires |s| > 0
  {
    var n := |s|;
    if n % 2 == 1 then s[n / 2] else (s[n / 2 - 1] + s[n / 2]) / 2.0
  }

  /** In a sorted sequence the middle lies between the entries at
      `(|s| - 1) / 2` and `|s| / 2`. */
  lemma MiddleBetween(s: seq<real>)
    requires |s| > 0 && Sorted(s, RealLe)
    ensures s[(|s| - 1) / 2] <= Middle(s) <= s[|s| / 2]
  {
    var n := |s|;
    if n % 2 == 0 {
      assert RealLe(s[n / 2 - 1], s[n / 2]);
    }
  }

  function AtMost(m: real): real -> bool
  {
    x => x <= m
  }

  function AtLeast(m: real): real -> bool
  {
    x => x >= m
  }

  /** The median is a middle value: at least half of the readings lie at or
      below it and at least half at or above it. */
  lemma MedianIsMiddle(xs: seq<real>)
    requires |xs| > 0
    ensures 2 * CountWhere(xs, AtMost(Median(xs).value)) >= |xs|
    ensures 2 * CountWhere(xs, AtLeast(Median(xs).value)) >= |xs|
  {
    var s := SortBy(xs, RealLe);
    RealLeIsTotalPreorder();
    SortBySorted(xs, RealLe);
    var m := Middle(s);
    MiddleBetween(s);
    LowerHalfAtMost(s, (|s| - 1) / 2, m);
    UpperHalfAtLeast(s, |s| / 2, m);
    CountWherePerm(s, xs, AtMost(m));
    CountWherePerm(s, xs, AtLeast(m));
  }

  lemma LowerHalfAtMost(s: seq<real>, lo: nat, m: real)
    requires lo < |s| && Sorted(s, RealLe) && s[lo] <= m
    ensures CountWhere(s, AtMost(m)) >= lo + 1
  {
    var pre := s[..lo + 1];
    forall i | 0 <= i < |pre|
      ensures AtMost(m)(pre[i])
    {
      assert RealLe(s[i], s[lo]) || i == lo;
    }
    CountWhereAll(pre, AtMost(m));
    assert s == pre + s[lo + 1..];
    CountWhereConcat(pre, s[lo + 1..], AtMost(m));
  }

  lemma UpperHalfAtLeast(s: seq<real>, hi: nat, m: real)
    requires hi < |s| && Sorted(s, RealLe) && m <= s[hi]
    ensures CountWhere(s, AtLeast(m)) >= |s| - hi
  {
    var post := s[hi..];
    forall i | 0 <= i < |post|
      ensures AtLeast(m)(post[i])
    {
      assert RealLe(s[hi], s[hi + i]) || i == 0;
    }
    CountWhereAll(post, AtLeast(m));
    assert s == s[..hi] + post;
    CountWhereConcat(s[..hi], post, AtLeast(m));
  }

  /** Consequently the median lies within any bounds that all readings obey. */
  lemma MedianWithin(xs: seq<real>, lo: real, hi: real)
    requires |xs| > 0
    requires forall i :: 0 <= i < |xs| ==> lo <= xs[i] <= hi
    ensures lo <= Median(xs).value <= hi
  {
    var m := Median(xs).value;
    MedianIsMiddle(xs);
    if m < lo {
      CountNone(xs, AtMost(m));
    }
    if m > hi {
      CountNone(xs, AtLeast(m));
    }
  }

  lemma {:induction false} CountNone(xs: seq<real>, p: real -> bool)
    requires forall i :: 0 <= i < |xs| ==> !p(xs[i])
    ensures CountWhere(xs, p) == 0
    decreases |xs|
  {
    if |xs| > 0 {
      CountNone(xs[1..], p);
    }
  }

  function Pow10(places: nat): (p: real)
    ensures p >= 1.0
  {
    if places == 0 then 1.0 else 10.0 * Pow10(places - 1)
  }

  /** Rounds `q` to the nearest integer, halves to the even one. */
  function RoundHalfEven(q: real): (n: int)
    ensures -0.5 <= n as real - q <= 0.5
  {
    var f := q.Floor;
    var frac := q - f as real;
    if frac < 0.5 then f
    else if frac > 0.5 then f + 1
    else if f % 2 == 0 then f else f + 1
  }

  /** Python's `round(x, places)` on the exact value: to the nearest multiple
      of `10^-places`, halves to the even neighbour. */
  function Round(x: real, places: nat): real
  {
    RoundHalfEven(Mul(x, Pow10(places))) as real / Pow10(places)
  }

  /** The rounded value is a whole number of `10^-places` steps, at most half
      a step away from `x`. */
  lemma RoundIsNearest(x: real, places: nat)
    ensures Mul(Round(x, places), Pow10(places)) == RoundHalfEven(Mul(x, Pow10(places))) as real
    ensures -0.5 <= Mul(Round(x, places) - x, Pow10(places)) <= 0.5
  {
    var p := Pow10(places);
    var n := RoundHalfEven(Mul(x, p)) as real;
    assert Round(x, places) == n / p;
    DivMul(n, p);
    assert Mul(n / p - x, p) == (n / p) * p - x * p;
  }
}
