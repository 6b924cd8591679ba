/** The reductions the transforms use over the present values of a column:
    `np.nanmin`, `np.nanmax`, `np.nanmean` and the population variance behind
    `np.nanstd(..., ddof=0)`, on exact reals. */
module Stats {
  import opened Seqs

  function Sum(xs: seq<real>): real
  {
    if xs == [] then 0.0 else xs[0] + Sum(xs[1..])
  }

  /** The arithmetic mean: the value whose `|xs|` copies add up to the total. */
  function Mean(xs: seq<real>): (r: real)
    requires xs != []
    ensures r * (|xs| as real) == Sum(xs)
  {
    Sum(xs) / (|xs| as real)
  }

  /** The sum of squared deviations of `xs` from `c`. */
  function SumSqDev(xs: seq<real>, c: real): real
  {
    if xs == [] then 0.0 else (xs[0] - c) * (xs[0] - c) + SumSqDev(xs[1..], c)
  }

  /** Population variance (`ddof=0`): the mean squared deviation from the
      mean. */
  function Variance(xs: seq<real>): (r: real)
    requires xs != []
    ensures r * (|xs| as real) == SumSqDev(xs, Mean(xs))
  {
    SumSqDev(xs, Mean(xs)) / (|xs| as real)
  }

  /** The smallest value: attained, and below every value. */
  function Min(xs: seq<real>): (r: real)
    requires xs != []
    ensures r in xs
    ensures forall x :: x in xs ==> r <= x
  {
    if |xs| == 1 then xs[0]
    else
      var m := Min(xs[1..]);
      assert forall x :: x in xs ==> x == xs[0] || x in xs[1..];
      if xs[0] <= m then xs[0] else m
  }

  /** The largest value: attained, and above every value. */
  function Max(xs: seq<real>): (r: real)
    requires xs != []
    ensures r in xs
    ensures forall x :: x in xs ==> x <= r
  {
    if |xs| == 1 then xs[0]
    else
      var m := Max(xs[1..]);
      assert forall x :: x in xs ==> x == xs[0] || x in xs[1..];
      if xs[0] >= m then xs[0] else m
  }

  lemma {:induction false} SumSqDevNonNegative(xs: seq<real>, c: real)
    ensures SumSqDev(xs, c) >= 0.0
  {
    if xs != [] {
      SumSqDevNonNegative(xs[1..], c);
      SquareNonNegative(xs[0] - c);
    }
  }

  /** One value away from `c` makes the sum of squared deviations positive. */
  lemma {:induction false} SumSqDevPositive(xs: seq<real>, c: real, i: nat)
    requires i < |xs| && xs[i] != c
    ensures SumSqDev(xs, c) > 0.0
  {
    SumSqDevNonNegative(xs[1..], c);
    if i == 0 {
      SquarePlusPositive(xs[0] - c, SumSqDev(xs[1..], c), SumSqDev(xs, c));
    } else {
      SquareNonNegative(xs[0] - c);
      SumSqDevPositive(xs[1..], c, i - 1);
    }
  }

  /** Every squared deviation from the common value is zero. */
  lemma {:induction false} SumSqDevConstant(xs: seq<real>, c: real)
    requires forall x :: x in xs ==> x == c
    ensures SumSqDev(xs, c) == 0.0
  {
    if xs != [] {
      assert xs[0] in xs;
      assert forall x :: x in xs[1..] ==> x in xs;
      SumSqDevConstant(xs[1..], c);
    }
  }

  lemma {:induction false} SumConstant(xs: seq<real>, c: real)
    requires forall x :: x in xs ==> x == c
    ensures Sum(xs) == (|xs| as real) * c
  {
    if xs != [] {
      assert xs[0] in xs;
      assert forall x :: x in xs[1..] ==> x in xs;
      SumConstant(xs[1..], c);
    }
  }

  /** The variance is never negative. */
  lemma VarianceNonNegative(xs: seq<real>)
    requires xs != []
    ensures Variance(xs) >= 0.0
  {
    SumSqDevNonNegative(xs, Mean(xs));
    DivNonNegative(SumSqDev(xs, Mean(xs)), |xs| as real);
  }

  /** The variance is zero exactly when all values are equal (one value, or
      several copies of it). */
  lemma VarianceZeroIffConstant(xs: seq<real>)
    requires xs != []
    ensures Variance(xs) == 0.0 <==> forall x :: x in xs ==> x == xs[0]
  {
    var mu := Mean(xs);
    if forall x :: x in xs ==> x == xs[0] {
      SumConstant(xs, xs[0]);
      assert mu == xs[0];
      SumSqDevConstant(xs, mu);
    } else {
      var i :| 0 <= i < |xs| && xs[i] != xs[0];
      if xs[i] != mu {
        SumSqDevPositive(xs, mu, i);
      } else {
        SumSqDevPositive(xs, mu, 0);
      }
      DivPositive(SumSqDev(xs, mu), |xs| as real);
    }
  }

  /** Summing standardised values: `sd` times the sum of `(x - mu) / sd` is
      `Sum(xs) - n * mu`. */
  lemma {:induction false} SumStandardized(xs: seq<real>, mu: real, sd: real)
    requires sd != 0.0
    ensures Sum(MapSeq(xs, x => (x - mu) / sd)) * sd == Sum(xs) - (|xs| as real) * mu
  {
    if xs != [] {
      var f := x => (x - mu) / sd;
      var zs := MapSeq(xs, f);
      assert zs[1..] == MapSeq(xs[1..], f);
      SumStandardized(xs[1..], mu, sd);
      MulDivCancel(xs[0] - mu, sd);
      SumScale(zs[0], Sum(zs[1..]), sd);
    }
  }

  /** `sd^2` times the squared deviations of standardised values from zero is
      the squared deviations of the values from `mu`. */
  lemma {:induction false} SumSqStandardized(xs: seq<real>, mu: real, sd: real)
    requires sd != 0.0
    ensures SumSqDev(MapSeq(xs, x => (x - mu) / sd), 0.0) * (sd * sd) == SumSqDev(xs, mu)
  {
    if xs != [] {
      var f := x => (x - mu) / sd;
      var zs := MapSeq(xs, f);
      assert zs[1..] == MapSeq(xs[1..], f);
      SumSqStandardized(xs[1..], mu, sd);
      MulDivCancel(xs[0] - mu, sd);
      SquareScale(zs[0], sd, xs[0] - mu);
      SumScale((zs[0] - 0.0) * (zs[0] - 0.0), SumSqDev(zs[1..], 0.0), sd * sd);
    }
  }

  /** Standardising with the mean and a square root of the population variance
      gives values with mean 0 and population variance 1. */
  lemma Standardization(xs: seq<real>, sd: real)
    requires xs != []
    requires sd > 0.0 && sd * sd == Variance(xs)
    ensures Mean(MapSeq(xs, x => (x - Mean(xs)) / sd)) == 0.0
    ensures Variance(MapSeq(xs, x => (x - Mean(xs)) / sd)) == 1.0
  {
    var mu := Mean(xs);
    var n := |xs| as real;
    var zs := MapSeq(xs, x => (x - mu) / sd);
    SumStandardized(xs, mu, sd);
    SumSqStandardized(xs, mu, sd);
    StandardizationArith(Sum(zs), Sum(xs), mu, n, sd, SumSqDev(zs, 0.0), SumSqDev(xs, mu));
  }

  // Field facts over plain variables. Each one states a step that the solver
  // proves at once in isolation but not inside the standardization proofs,
  // where sums, means and squares are in scope; calling the lemma hands it
  // exactly the instance needed and keeps those proofs within the resource
  // limit.

  /** A square is never negative. */
  lemma SquareNonNegative(d: real)
    ensures d * d >= 0.0
  {
  }

  /** `x` itself. A product `d * Copy(d)` is not recognised as a square by
      the solver, which loses the strict sign of squares in larger contexts. */
  function Copy(x: real): real
  {
    x
  }

  /** A non-zero square plus a non-negative rest is positive. */
  lemma SquarePlusPositive(d: real, r: real, s: real)
    requires d != 0.0 && r >= 0.0 && s == d * d + r
    ensures s > 0.0
  {
    var e := Copy(d);
    assert d * e > 0.0 by {
      if d < 0.0 {
        assert (-d) * (-e) > 0.0;
      }
    }
    assert s == d * e + r;
  }

  /** Used by `VarianceNonNegative`: a non-negative sum over a positive count. */
  lemma DivNonNegative(s: real, n: real)
    requires s >= 0.0 && n > 0.0
    ensures s / n >= 0.0
  {
  }

  /** Used by `VarianceZeroIffConstant`: a positive sum over a positive count. */
  lemma DivPositive(s: real, n: real)
    requires s > 0.0 && n > 0.0
    ensures s / n > 0.0
  {
  }

  /** Used by `Standardized`: a quotient by a positive number has the sign of
      its numerator. */
  lemma DivSign(a: real, k: real)
    requires k > 0.0
    ensures (a / k > 0.0 <==> a > 0.0) && (a / k == 0.0 <==> a == 0.0)
  {
  }

  /** Division undone by multiplication. */
  lemma MulDivCancel(a: real, k: real)
    requires k != 0.0
    ensures (a / k) * k == a
  {
  }

  /** A product of non-zero reals is non-zero. */
  lemma ProductNonZero(x: real, c: real)
    requires x != 0.0 && c != 0.0
    ensures x * c != 0.0
  {
    if x > 0.0 {
      if c > 0.0 { assert x * c > 0.0; } else { assert x * (-c) > 0.0; }
    } else {
      if c > 0.0 { assert (-x) * c > 0.0; } else { assert (-x) * (-c) > 0.0; }
    }
  }

  /** Cancelling a non-zero factor. */
  lemma MulCancel(a: real, b: real, c: real)
    requires c != 0.0
    ensures a * c == b * c ==> a == b
  {
    if a != b {
      ProductNonZero(a - b, c);
      assert (a - b) * c == a * c - b * c;
    }
  }

  /** Squaring both sides of `z * k == d`. */
  lemma SquareScale(z: real, k: real, d: real)
    requires z * k == d
    ensures (z * z) * (k * k) == d * d
  {
    assert d * d == (z * k) * (z * k);
  }

  /** Distributivity, the step of the inductions in `SumStandardized` and `SumSqStandardized`. */
  lemma SumScale(z: real, s: real, k: real)
    ensures (z + s) * k == z * k + s * k
  {
  }

  /** The arithmetic behind `Standardization`, over the sums involved. */
  lemma StandardizationArith(sumZ: real, sumX: real, mu: real, n: real, sd: real, ssZ: real, ssX: real)
    requires n > 0.0 && sd > 0.0
    requires mu == sumX / n && sumZ * sd == sumX - n * mu
    requires sd * sd == ssX / n && ssZ * (sd * sd) == ssX
    ensures sumZ / n == 0.0
    ensures ssZ / n == 1.0
  {
    MulDivCancel(sumX, n);
    assert sumZ * sd == 0.0 * sd;
    MulCancel(sumZ, 0.0, sd);
    var v := ssX / n;
    SquarePlusPositive(sd, 0.0, v);
    MulDivCancel(ssX, n);
    assert ssZ * v == n * v;
    MulCancel(ssZ, n, v);
  }
}
