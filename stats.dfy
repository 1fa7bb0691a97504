/**
 * The three reductions parse_cash_flows applies to the parsed values:
 * Python's `sum`, `np.mean` and the population variance under `np.std`
 * (squared deviations divided by N). Arithmetic is exact over reals.
 */
module Stats {

  /** Python's `sum`: the values added up, starting from 0. */
  function Sum(xs: seq<real>): real {
    if xs == [] then 0.0 else xs[0] + Sum(xs[1..])
  }

  /** Every value of the series is the same. */
  predicate Constant(xs: seq<real>) {
    forall i, j :: 0 <= i < |xs| && 0 <= j < |xs| ==> xs[i] == xs[j]
  }

  /** `np.mean`: the total shared out evenly over the N values. */
  function Mean(xs: seq<real>): (m: real)
    requires |xs| > 0
    ensures m * |xs| as real == Sum(xs)
  {
    Sum(xs) / |xs| as real
  }

  /** d², the square of a deviation. */
  function Sq(d: real): real {
    d * d
  }

  /** A square is never negative, and zero only for zero. */
  lemma SqSign(d: real)
    ensures Sq(d) >= 0.0
    ensures Sq(d) == 0.0 <==> d == 0.0
  {
    if d > 0.0 {
      SquareMonotonic(0.0, d);
    } else if d < 0.0 {
      SquareMonotonic(0.0, -d);
      SqEven(d);
    }
  }

  /** A deviation and its opposite have the same square. */
  lemma SqEven(d: real)
    ensures Sq(-d) == Sq(d)
  {
  }

  /** Σ (x - c)², which vanishes exactly when every value equals `c`. */
  function SquaredDeviations(xs: seq<real>, c: real): (r: real)
    ensures r >= 0.0
    ensures r == 0.0 <==> forall i :: 0 <= i < |xs| ==> xs[i] == c
  {
    if xs == [] then 0.0
    else
      var d := xs[0] - c;
      var rest := SquaredDeviations(xs[1..], c);
      SqSign(d);
      assert forall i :: 1 <= i < |xs| ==> xs[i] == xs[1..][i - 1];
      Sq(d) + rest
  }

  /**
   * The population variance (`np.std` squared, divisor N): never negative,
   * and zero exactly for a constant series.
   */
  function Variance(xs: seq<real>): (v: real)
    requires |xs| > 0
    ensures v >= 0.0
    ensures v == 0.0 <==> Constant(xs)
  {
    var m := Mean(xs);
    var s := SquaredDeviations(xs, m);
    assert Constant(xs) <==> forall i :: 0 <= i < |xs| ==> xs[i] == m by {
      if Constant(xs) {
        MeanOfConstant(xs);
      }
    }
    s / |xs| as real
  }

  /** `v` is the non-negative square root of `variance`. */
  ghost predicate IsRoot(variance: real, v: real) {
    v >= 0.0 && Sq(v) == variance
  }

  /** `np.std`: `v` is the non-negative square root of the population variance. */
  ghost predicate IsStdDev(xs: seq<real>, v: real)
    requires |xs| > 0
  {
    IsRoot(Variance(xs), v)
  }

  /** There is at most one standard deviation. */
  lemma StdDevUnique(xs: seq<real>, v: real, w: real)
    requires |xs| > 0 && IsStdDev(xs, v) && IsStdDev(xs, w)
    ensures v == w
  {
    if v < w {
      SquareMonotonic(v, w);
    } else if w < v {
      SquareMonotonic(w, v);
    }
  }

  /** The standard deviation is zero exactly when all values are equal. */
  lemma StdDevZeroIffConstant(xs: seq<real>, v: real)
    requires |xs| > 0 && IsStdDev(xs, v)
    ensures v == 0.0 <==> Constant(xs)
  {
    var variance := Variance(xs);
    assert variance == 0.0 <==> Constant(xs);
    SqSign(v);
  }

  /** Squaring is strictly increasing on the non-negative reals. */
  lemma SquareMonotonic(a: real, b: real)
    requires 0.0 <= a < b
    ensures Sq(a) < Sq(b)
  {
    var p, q := b - a, b + a;
    ProductPositive(p, q);
    assert Sq(b) == Sq(a) + p * q;
  }

  /** The product of two positive numbers is positive. */
  lemma ProductPositive(p: real, q: real)
    requires p > 0.0 && q > 0.0
    ensures p * q > 0.0
  {
  }

  /** A series of N copies of `c` adds up to N·c. */
  lemma {:induction false} SumOfConstant(xs: seq<real>, c: real)
    requires forall i :: 0 <= i < |xs| ==> xs[i] == c
    ensures Sum(xs) == |xs| as real * c
  {
    if xs != [] {
      SumOfConstant(xs[1..], c);
    }
  }

  /** The mean of a constant series is that constant. */
  lemma MeanOfConstant(xs: seq<real>)
    requires |xs| > 0 && Constant(xs)
    ensures Mean(xs) == xs[0]
  {
    SumOfConstant(xs, xs[0]);
  }

  /** Adding up two runs one after the other is adding up each. */
  lemma {:induction false} SumAppend(xs: seq<real>, ys: seq<real>)
    ensures Sum(xs + ys) == Sum(xs) + Sum(ys)
  {
    if xs == [] {
      assert xs + ys == ys;
    } else {
      assert (xs + ys)[1..] == xs[1..] + ys;
      SumAppend(xs[1..], ys);
    }
  }

  /** Adding the values from the left, as Python's `sum` does, gives the same total. */
  lemma SumLeftToRight(xs: seq<real>, x: real)
    ensures Sum(xs + [x]) == Sum(xs) + x
  {
    SumAppend(xs, [x]);
  }

  /** Bounds on the values bound the total. */
  lemma {:induction false} SumBounds(xs: seq<real>, lo: real, hi: real)
    requires forall i :: 0 <= i < |xs| ==> lo <= xs[i] <= hi
    ensures |xs| as real * lo <= Sum(xs) <= |xs| as real * hi
  {
    if xs != [] {
      assert forall i :: 1 <= i < |xs| ==> xs[i] == xs[1..][i - 1];
      SumBounds(xs[1..], lo, hi);
    }
  }

  /** The mean lies between the smallest and the largest value. */
  lemma MeanBounds(xs: seq<real>, lo: real, hi: real)
    requires |xs| > 0
    requires forall i :: 0 <= i < |xs| ==> lo <= xs[i] <= hi
    ensures lo <= Mean(xs) <= hi
  {
    SumBounds(xs, lo, hi);
    var n := |xs| as real;
    assert Mean(xs) * n >= lo * n;
    assert Mean(xs) * n <= hi * n;
  }
}
