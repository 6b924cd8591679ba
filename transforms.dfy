/** The four views of a metric column offered by the Transform radio items:
    raw values, `log1p` of the values clipped at zero, z-scores and min-max
    scaling. A series is one entry per row, None where the value is NaN. */
module Transforms {
  import opened Wrappers
  import opened Seqs
  import opened Stats

  type Series = seq<Option<real>>

  datatype Transform = Raw | Log1p | ZScore | MinMax

  /** The floating-point functions the transforms call (`np.log1p`, and the
      square root inside `np.nanstd`), taken as given. */
  datatype Numerics = Numerics(log1p: real -> real, sqrt: real -> real)

  /** The transform a radio value selects. The if/elif chain tests the three
      names and falls through for any other value, which leaves the series
      as it is. */
  function TransformNamed(name: string): (r: Transform)
    ensures r == Log1p <==> name == "log1p"
    ensures r == ZScore <==> name == "zscore"
    ensures r == MinMax <==> name == "minmax"
    ensures r == Raw <==> name != "log1p" && name != "zscore" && name != "minmax"
  {
    if name == "log1p" then Log1p
    else if name == "zscore" then ZScore
    else if name == "minmax" then MinMax
    else Raw
  }

  /** `x.clip(lower=0)` on one value. */
  function ClipAtZero(x: real): (r: real)
    ensures r >= 0.0
    ensures x >= 0.0 ==> r == x
    ensures x < 0.0 ==> r == 0.0
  {
    if x < 0.0 then 0.0 else x
  }

  /** `np.log1p(x.clip(lower=0))`. */
  function Log1pView(num: Numerics, s: Series): (r: Series)
    ensures |r| == |s|
    ensures forall i :: 0 <= i < |s| ==> (r[i].Some? <==> s[i].Some?)
  {
    MapPresent(s, x => num.log1p(ClipAtZero(x)))
  }

  /** Every present value multiplied by zero (`x*0`): zeros where there was a
      value, NaN where there was none. */
  function Zeros(s: Series): (r: Series)
    ensures |r| == |s|
    ensures forall i :: 0 <= i < |s| ==> (r[i].Some? <==> s[i].Some?)
    ensures forall i :: 0 <= i < |s| && r[i].Some? ==> r[i].value == 0.0
  {
    MapPresent(s, (x: real) => 0.0)
  }

  /** The standard deviation the z-score uses: the square root of the
      population variance of the present values (`np.nanstd(x, ddof=0)`). */
  function StdDev(num: Numerics, p: seq<real>): (r: real)
    requires p != []
    ensures Variance(p) >= 0.0 && r == num.sqrt(Variance(p))
  {
    VarianceNonNegative(p);
    num.sqrt(Variance(p))
  }

  /** The standard deviation of equal values is the square root of zero. */
  lemma StdDevOfConstant(num: Numerics, p: seq<real>)
    requires p != [] && forall x :: x in p ==> x == p[0]
    ensures StdDev(num, p) == num.sqrt(0.0)
  {
    VarianceZeroIffConstant(p);
  }

  /** `(x - mu) / sd if sd > 0 else x*0`, with `mu` and `sd` taken over the
      present values. With no present value both are NaN, `sd > 0` fails, and
      the series is multiplied by zero. */
  function ZScoreView(num: Numerics, s: Series): (r: Series)
    ensures |r| == |s|
    ensures forall i :: 0 <= i < |s| ==> (r[i].Some? <==> s[i].Some?)
  {
    var p := Present(s);
    if p != [] && StdDev(num, p) > 0.0 then
      var mu := Mean(p);
      var sd := StdDev(num, p);
      MapPresent(s, x => Standardized(x, mu, sd))
    else Zeros(s)
  }

  /** `(x - mu) / sd`. */
  function Standardized(x: real, mu: real, sd: real): (r: real)
    requires sd > 0.0
    ensures r * sd == x - mu
    ensures (r > 0.0 <==> x > mu) && (r == 0.0 <==> x == mu)
  {
    MulDivCancel(x - mu, sd);
    DivSign(x - mu, sd);
    (x - mu) / sd
  }

  /** `(x - mn) / (mx - mn) if mx > mn else x*0`, with `mn` and `mx` taken over
      the present values. An all-NaN series has NaN extremes, so `mx > mn`
      fails. The zero-length series is handled as the evidently intended
      behaviour (see `MinMaxAsWritten`). */
  function MinMaxView(s: Series): (r: Series)
    ensures |r| == |s|
    ensures forall i :: 0 <= i < |s| ==> (r[i].Some? <==> s[i].Some?)
  {
    var p := Present(s);
    if p != [] && Max(p) > Min(p) then
      var mn := Min(p);
      var mx := Max(p);
      MapPresent(s, x => Scaled(x, mn, mx))
    else Zeros(s)
  }

  /** `(x - mn) / (mx - mn)`. */
  function Scaled(x: real, mn: real, mx: real): (r: real)
    requires mx > mn
    ensures r * (mx - mn) == x - mn
  {
    MulDivCancel(x - mn, mx - mn);
    (x - mn) / (mx - mn)
  }

  /** The min-max branch as written: `np.nanmin` and `np.nanmax` of a
      zero-length series raise ValueError (None here) instead of yielding NaN. */
  function MinMaxAsWritten(s: Series): (r: Option<Series>)
    ensures r.None? <==> s == []
    ensures r.Some? ==> r.value == MinMaxView(s)
  {
    if s == [] then None else Some(MinMaxView(s))
  }

  /** The view of the metric under the selected transform. Every transform
      keeps one entry per row and keeps exactly the NaN entries NaN. */
  function Apply(t: Transform, num: Numerics, s: Series): (r: Series)
    ensures |r| == |s|
    ensures forall i :: 0 <= i < |s| ==> (r[i].Some? <==> s[i].Some?)
    ensures t == Raw ==> r == s
  {
    match t
    case Raw => s
    case Log1p => Log1pView(num, s)
    case ZScore => ZScoreView(num, s)
    case MinMax => MinMaxView(s)
  }

  /** A radio value other than the three transform names shows raw values. */
  lemma UnknownNameIsRaw(name: string, num: Numerics, s: Series)
    requires name != "log1p" && name != "zscore" && name != "minmax"
    ensures Apply(TransformNamed(name), num, s) == s
  {
  }

  /** log1p takes non-negative values as they are and treats every negative
      value as zero: the output is `log1p(max(v, 0))`. */
  lemma Log1pClipsNegatives(num: Numerics, s: Series, i: nat)
    requires i < |s| && s[i].Some?
    ensures s[i].value >= 0.0 ==> Log1pView(num, s)[i] == Some(num.log1p(s[i].value))
    ensures s[i].value <= 0.0 ==> Log1pView(num, s)[i] == Some(num.log1p(0.0))
  {
    assert Log1pView(num, s)[i].value == num.log1p(ClipAtZero(s[i].value));
    if s[i].value <= 0.0 {
      assert ClipAtZero(s[i].value) == 0.0;
    }
  }

  /** When `log1p` is non-decreasing on the non-negative reals, the log1p view
      keeps the order of the present values. */
  lemma Log1pKeepsOrder(num: Numerics, s: Series, i: nat, j: nat)
    requires forall a: real, b: real :: 0.0 <= a <= b ==> num.log1p(a) <= num.log1p(b)
    requires i < |s| && j < |s| && s[i].Some? && s[j].Some? && s[i].value <= s[j].value
    ensures Log1pView(num, s)[i].value <= Log1pView(num, s)[j].value
  {
    var a := ClipAtZero(s[i].value);
    var b := ClipAtZero(s[j].value);
    assert a <= b;
    assert num.log1p(a) <= num.log1p(b);
  }

  /** One present entry of the z-score view: the value minus the mean over the
      standard deviation when that is positive, and 0 otherwise. */
  lemma ZScoreAt(num: Numerics, s: Series, i: nat)
    requires i < |s| && s[i].Some?
    ensures Present(s) != []
    ensures StdDev(num, Present(s)) > 0.0 ==>
              ZScoreView(num, s)[i] == Some(Standardized(s[i].value, Mean(Present(s)), StdDev(num, Present(s))))
    ensures StdDev(num, Present(s)) <= 0.0 ==> ZScoreView(num, s)[i] == Some(0.0)
  {
    assert s[i].value in Present(s);
  }

  /** One present entry of the min-max view, in terms of the extremes. */
  lemma MinMaxAt(s: Series, i: nat)
    requires i < |s| && s[i].Some?
    ensures Present(s) != [] && Min(Present(s)) <= s[i].value <= Max(Present(s))
    ensures MinMaxView(s)[i].Some?
    ensures Max(Present(s)) > Min(Present(s)) ==>
              MinMaxView(s)[i].value == Scaled(s[i].value, Min(Present(s)), Max(Present(s)))
    ensures Max(Present(s)) <= Min(Present(s)) ==> MinMaxView(s)[i].value == 0.0
  {
    assert s[i].value in Present(s);
  }

  /** Every present value of the min-max view lies in [0, 1]. */
  lemma MinMaxInUnitInterval(s: Series, i: nat)
    requires i < |s| && s[i].Some?
    ensures 0.0 <= MinMaxView(s)[i].value <= 1.0
  {
    MinMaxAt(s, i);
    var mn, mx := Min(Present(s)), Max(Present(s));
    if mx > mn {
      ScaledInUnitInterval(s[i].value, mn, mx);
    }
  }

  /** Every value left after dropping NaN from the min-max view lies in [0, 1]. */
  lemma MinMaxPresentInUnitInterval(s: Series, v: real)
    requires v in Present(MinMaxView(s))
    ensures 0.0 <= v <= 1.0
  {
    var x := MinMaxView(s);
    var k :| 0 <= k < |x| && x[k] == Some(v);
    MinMaxInUnitInterval(s, k);
  }

  /** When the present values are not all equal (entries `i` and `j` differ),
      the smallest maps to 0 and the largest to 1. */
  lemma MinMaxEndpoints(s: Series, i: nat, j: nat)
    requires i < |s| && s[i].Some?
    requires j < |s| && s[j].Some? && s[j].value != s[i].value
    ensures s[i].value == Min(Present(s)) ==> MinMaxView(s)[i].value == 0.0
    ensures s[i].value == Max(Present(s)) ==> MinMaxView(s)[i].value == 1.0
  {
    MinMaxAt(s, i);
    MinMaxAt(s, j);
    ScaleEndpoints(s[i].value, Min(Present(s)), Max(Present(s)));
  }

  /** Min-max scaling keeps the order of the present values, strictly. */
  lemma MinMaxKeepsOrder(s: Series, i: nat, j: nat)
    requires i < |s| && j < |s| && s[i].Some? && s[j].Some?
    ensures s[i].value <= s[j].value ==> MinMaxView(s)[i].value <= MinMaxView(s)[j].value
    ensures s[i].value < s[j].value ==> MinMaxView(s)[i].value < MinMaxView(s)[j].value
  {
    MinMaxAt(s, i);
    MinMaxAt(s, j);
    var mn, mx := Min(Present(s)), Max(Present(s));
    if mx > mn {
      ScaledMonotone(s[i].value, s[j].value, mn, mx);
    }
  }

  /** When every present value is the same, min-max scaling maps them all to 0. */
  lemma MinMaxConstant(s: Series)
    requires forall i, j :: 0 <= i < |s| && 0 <= j < |s| && s[i].Some? && s[j].Some? ==> s[i].value == s[j].value
    ensures MinMaxView(s) == Zeros(s)
  {
    var p := Present(s);
    if p != [] {
      var lo := Min(p);
      var hi := Max(p);
      assert Some(lo) in s && Some(hi) in s;
    }
  }

  /** Z-scores of a series whose present values are not all equal have mean 0
      and population variance 1 over the present values, provided the square
      root is exact. */
  lemma ZScoreStandardizes(num: Numerics, s: Series)
    requires Present(s) != []
    requires StdDev(num, Present(s)) > 0.0
    requires StdDev(num, Present(s)) * StdDev(num, Present(s)) == Variance(Present(s))
    ensures Present(ZScoreView(num, s)) != []
    ensures Mean(Present(ZScoreView(num, s))) == 0.0
    ensures Variance(Present(ZScoreView(num, s))) == 1.0
  {
    var p := Present(s);
    var mu := Mean(p);
    var sd := StdDev(num, p);
    PresentOfMapPresent(s, x => Standardized(x, mu, sd));
    StandardizedSeq(p, mu, sd);
    assert MapSeq(p, x => (x - mu) / sd) == MapSeq(p, x => (x - Mean(p)) / sd);
    Standardization(p, sd);
  }

  /** Standardizing through `Standardized` is dividing the deviation from `mu` by `sd`. */
  lemma StandardizedSeq(p: seq<real>, mu: real, sd: real)
    requires sd > 0.0
    ensures MapSeq(p, x => Standardized(x, mu, sd)) == MapSeq(p, x => (x - mu) / sd)
  {
  }

  /** When every present value is the same, the variance is 0, `sd > 0` fails
      (given an exact square root of 0) and every present value maps to 0. */
  lemma ZScoreConstant(num: Numerics, s: Series)
    requires num.sqrt(0.0) == 0.0
    requires forall i, j :: 0 <= i < |s| && 0 <= j < |s| && s[i].Some? && s[j].Some? ==> s[i].value == s[j].value
    ensures ZScoreView(num, s) == Zeros(s)
  {
    var p := Present(s);
    if p != [] {
      forall x | x in p
        ensures x == p[0]
      {
        assert Some(x) in s && Some(p[0]) in s;
      }
      VarianceZeroIffConstant(p);
    }
  }

  // Facts about `Scaled` over plain reals. The min-max lemmas above call them
  // rather than reason about the division next to `Present`, `Min` and `Max`,
  // which the solver does not finish within the resource limit.

  /** A value between the extremes scales into [0, 1]. */
  lemma ScaledInUnitInterval(x: real, mn: real, mx: real)
    requires mn <= x <= mx && mx > mn
    ensures 0.0 <= Scaled(x, mn, mx) <= 1.0
  {
    FractionInUnitInterval(x - mn, mx - mn);
  }

  /** The extremes scale to 0 and 1. */
  lemma ScaleEndpoints(x: real, mn: real, mx: real)
    requires mn <= x <= mx
    ensures mx > mn && x == mn ==> Scaled(x, mn, mx) == 0.0
    ensures mx > mn && x == mx ==> Scaled(x, mn, mx) == 1.0
  {
    if mx > mn {
      FractionInUnitInterval(0.0, mx - mn);
      FractionOfSelf(mx - mn);
    }
  }

  /** Scaling by positive width keeps weak and strict order. */
  lemma ScaledMonotone(x: real, y: real, mn: real, mx: real)
    requires mx > mn
    ensures x <= y ==> Scaled(x, mn, mx) <= Scaled(y, mn, mx)
    ensures x < y ==> Scaled(x, mn, mx) < Scaled(y, mn, mx)
  {
  }

  /** A fraction of a positive whole lies in [0, 1]. */
  lemma FractionInUnitInterval(a: real, d: real)
    requires 0.0 <= a <= d && d > 0.0
    ensures 0.0 <= a / d <= 1.0
  {
  }

  /** The whole over itself is 1, and nothing over it is 0. */
  lemma FractionOfSelf(d: real)
    requires d != 0.0
    ensures d / d == 1.0 && 0.0 / d == 0.0
  {
  }
}
