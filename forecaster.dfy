/** The three-month forecast (analisador_vacinacao.py, lines 47-53 and 74):
    an ordinary least-squares line of the count against the row's position
    0..n-1, evaluated at positions n, n+1 and n+2 and dated 30, 60 and 90
    days after the last observation. */
module Forecaster {
  import opened Wrappers
  import opened Loader
  import Arith

  /** Number of forecast points (`range(1, 4)`). */
  const Horizon: nat := 3

  /** Days between forecast points (`timedelta(days=30*i)`). */
  const StepDays: int := 30

  /** A fitted line: count = slope * position + intercept. */
  datatype Line = Line(slope: real, intercept: real)

  function Predict(f: Line, x: real): real {
    f.slope * x + f.intercept
  }

  // Sums over positions 0..n-1 and over a series of values.

  /** k copies of y added up, that is k * y (TimesIsProduct). The sums over
      positions below multiply by a position this way, so that unfolding
      them one step adds no product of unknowns. */
  function Times(k: nat, y: real): real {
    if k == 0 then 0.0 else Times(k - 1, y) + y
  }

  lemma {:induction false} TimesIsProduct(k: nat, y: real)
    ensures Times(k, y) == k as real * y
  {
    if k > 0 {
      TimesIsProduct(k - 1, y);
      Arith.ProductStep((k - 1) as real, k as real, y, Times(k - 1, y));
    }
  }

  /** The sum of the positions 0 + 1 + ... + (n - 1). */
  function SumI(n: nat): real {
    if n == 0 then 0.0 else SumI(n - 1) + (n - 1) as real
  }

  /** The sum of the squared positions. */
  function SumII(n: nat): real {
    if n == 0 then 0.0 else SumII(n - 1) + Times(n - 1, (n - 1) as real)
  }

  /** The sum of the first n values. */
  function SumY(ys: seq<real>, n: nat): real
    requires n <= |ys|
  {
    if n == 0 then 0.0 else SumY(ys, n - 1) + ys[n - 1]
  }

  /** The sum of position times value over the first n values. */
  function SumIY(ys: seq<real>, n: nat): real
    requires n <= |ys|
  {
    if n == 0 then 0.0 else SumIY(ys, n - 1) + Times(n - 1, ys[n - 1])
  }

  lemma {:induction false} SumIClosedForm(n: nat)
    ensures 2.0 * SumI(n) == n as real * (n as real - 1.0)
  {
    if n > 0 {
      SumIClosedForm(n - 1);
      Arith.GaussStep(n as real, SumI(n - 1));
    }
  }

  lemma {:induction false} SumIIClosedForm(n: nat)
    ensures 6.0 * SumII(n) == (n as real - 1.0) * n as real * (2.0 * n as real - 1.0)
  {
    if n > 0 {
      SumIIClosedForm(n - 1);
      TimesIsProduct(n - 1, (n - 1) as real);
      Arith.SquaresStep(n as real, SumII(n - 1));
    }
  }

  /** The statistics a least-squares fit of values against their positions
      0..n-1 depends on: n, Σi, Σi², Σy and Σiy. */
  datatype Moments = Moments(n: real, sx: real, sxx: real, sy: real, sxy: real)

  /** The statistics of the first n values. The proofs below name running
      totals through this non-recursive function rather than through the
      recursive sums themselves. */
  function PrefixMoments(ys: seq<real>, n: nat): Moments
    requires n <= |ys|
  {
    Moments(n as real, SumI(n), SumII(n), SumY(ys, n), SumIY(ys, n))
  }

  function MomentsOf(ys: seq<real>): Moments {
    PrefixMoments(ys, |ys|)
  }

  /** Taking in the value y at position k = n - 1 adds 1, k, k², y and k y. */
  lemma MomentsStep(ys: seq<real>, n: nat)
    requires 0 < n <= |ys|
    ensures PrefixMoments(ys, n).n == PrefixMoments(ys, n - 1).n + 1.0
    ensures PrefixMoments(ys, n).sx == PrefixMoments(ys, n - 1).sx + (n - 1) as real
    ensures PrefixMoments(ys, n).sxx == PrefixMoments(ys, n - 1).sxx + (n - 1) as real * (n - 1) as real
    ensures PrefixMoments(ys, n).sy == PrefixMoments(ys, n - 1).sy + ys[n - 1]
    ensures PrefixMoments(ys, n).sxy == PrefixMoments(ys, n - 1).sxy + (n - 1) as real * ys[n - 1]
  {
    TimesIsProduct(n - 1, (n - 1) as real);
    TimesIsProduct(n - 1, ys[n - 1]);
  }

  /** n Σi² - (Σi)², the denominator of the least-squares slope. */
  function Spread(m: Moments): real {
    m.n * m.sxx - m.sx * m.sx
  }

  /** The spread of the positions is n²(n²-1)/12: zero for a single point,
      positive from two points on. */
  lemma SpreadSign(ys: seq<real>)
    ensures |ys| <= 1 ==> Spread(MomentsOf(ys)) == 0.0
    ensures |ys| >= 2 ==> Spread(MomentsOf(ys)) > 0.0
  {
    SumIClosedForm(|ys|);
    SumIIClosedForm(|ys|);
    Arith.DenominatorForm(|ys| as real, SumI(|ys|), SumII(|ys|));
  }

  /** The closed-form least-squares line. When the positions do not vary
      the slope is 0, the minimum-norm solution, so the line is flat. */
  function FitMoments(m: Moments): Line
    requires m.n > 0.0
  {
    Line(FitSlope(m), (m.sy - FitSlope(m) * m.sx) / m.n)
  }

  function FitSlope(m: Moments): real {
    if Spread(m) == 0.0 then 0.0 else (m.n * m.sxy - m.sx * m.sy) / Spread(m)
  }

  /** `LinearRegression().fit(X, y)` with X = 0..n-1. A single observation
      is fitted by the flat line through it. */
  function FitLine(ys: seq<real>): (f: Line)
    requires |ys| > 0
    ensures |ys| == 1 ==> f == Line(0.0, ys[0])
  {
    if |ys| == 1 then SingleMoments(ys); FitMoments(MomentsOf(ys))
    else FitMoments(MomentsOf(ys))
  }

  /** The statistics of a single value. */
  lemma SingleMoments(ys: seq<real>)
    requires |ys| == 1
    ensures MomentsOf(ys) == Moments(1.0, 0.0, 0.0, ys[0], 0.0)
  {
    MomentsStep(ys, 1);
  }

  /** The spread vanishes only for a single point, where every sum over
      positions is zero. */
  lemma FlatMoments(ys: seq<real>)
    requires |ys| > 0
    ensures Spread(MomentsOf(ys)) == 0.0 ==>
      MomentsOf(ys).sx == 0.0 && MomentsOf(ys).sxx == 0.0 && MomentsOf(ys).sxy == 0.0
  {
    SpreadSign(ys);
    if |ys| == 1 {
      SingleMoments(ys);
    }
  }

  /** The closed form solves the normal equations of the statistics. */
  lemma FitMomentsNormal(m: Moments, f: Line)
    requires m.n > 0.0 && f == FitMoments(m)
    requires Spread(m) == 0.0 ==> m.sx == 0.0 && m.sxx == 0.0 && m.sxy == 0.0
    ensures m.sy - f.slope * m.sx - f.intercept * m.n == 0.0
    ensures m.sxy - f.slope * m.sxx - f.intercept * m.sx == 0.0
  {
    Arith.FitAlgebra(m.n, m.sx, m.sxx, m.sy, m.sxy, Spread(m), f.slope, f.intercept);
  }

  /** A line g that solves the normal equations of statistics whose
      positions vary is the closed-form fit. */
  lemma FitMomentsUnique(m: Moments, g: Line)
    requires m.n > 0.0 && Spread(m) > 0.0
    requires m.sy - g.slope * m.sx - g.intercept * m.n == 0.0
    requires m.sxy - g.slope * m.sxx - g.intercept * m.sx == 0.0
    ensures FitMoments(m) == g
  {
    Arith.LineAlgebra(m.n, m.sx, m.sxx, m.sy, m.sxy, Spread(m), g.slope, g.intercept, FitSlope(m));
  }

  // The residuals of a line and what least squares means.

  function Residual(ys: seq<real>, f: Line, i: nat): real
    requires i < |ys|
  {
    ys[i] - Predict(f, i as real)
  }

  /** The sum of the first n residuals. */
  function ResidualSum(ys: seq<real>, f: Line, n: nat): real
    requires n <= |ys|
  {
    if n == 0 then 0.0 else ResidualSum(ys, f, n - 1) + Residual(ys, f, n - 1)
  }

  /** The sum of position times residual over the first n values. */
  function WeightedResidualSum(ys: seq<real>, f: Line, n: nat): real
    requires n <= |ys|
  {
    if n == 0 then 0.0
    else WeightedResidualSum(ys, f, n - 1) + Times(n - 1, Residual(ys, f, n - 1))
  }

  /** The sum of the first n squared residuals; least squares minimises it
      over all n values. */
  function SquaredError(ys: seq<real>, f: Line, n: nat): real
    requires n <= |ys|
  {
    if n == 0 then 0.0
    else
      var r := Residual(ys, f, n - 1);
      SquaredError(ys, f, n - 1) + r * r
  }

  /** The two residual sums of a line over the first n values. */
  datatype ResidualTotals = ResidualTotals(plain: real, weighted: real)

  function ResidualsOf(ys: seq<real>, f: Line, n: nat): ResidualTotals
    requires n <= |ys|
  {
    ResidualTotals(ResidualSum(ys, f, n), WeightedResidualSum(ys, f, n))
  }

  /** One step of the residual totals, in terms of f's residual e at
      position n - 1. */
  lemma ResidualsStep(ys: seq<real>, f: Line, n: nat) returns (e: real)
    requires 0 < n <= |ys|
    ensures e == ys[n - 1] - (f.slope * (n - 1) as real + f.intercept)
    ensures ResidualsOf(ys, f, n).plain == ResidualsOf(ys, f, n - 1).plain + e
    ensures ResidualsOf(ys, f, n).weighted == ResidualsOf(ys, f, n - 1).weighted + (n - 1) as real * e
  {
    e := Residual(ys, f, n - 1);
    TimesIsProduct(n - 1, e);
  }

  /** One step of the statistics and of f's residual totals: m and t before
      the value y at position n - 1 is taken in, m' and t' after, and e the
      residual of f there. The position n - 1 is m.n, the count so far. */
  lemma PrefixStep(ys: seq<real>, f: Line, n: nat)
      returns (m: Moments, m': Moments, t: ResidualTotals, t': ResidualTotals, y: real, e: real)
    requires 0 < n <= |ys|
    ensures m == PrefixMoments(ys, n - 1) && m' == PrefixMoments(ys, n)
    ensures t == ResidualsOf(ys, f, n - 1) && t' == ResidualsOf(ys, f, n)
    ensures m'.n == m.n + 1.0 && m'.sx == m.sx + m.n && m'.sxx == m.sxx + m.n * m.n
    ensures m'.sy == m.sy + y && m'.sxy == m.sxy + m.n * y
    ensures e == y - (f.slope * m.n + f.intercept)
    ensures t'.plain == t.plain + e && t'.weighted == t.weighted + m.n * e
  {
    m, m' := PrefixMoments(ys, n - 1), PrefixMoments(ys, n);
    t, t' := ResidualsOf(ys, f, n - 1), ResidualsOf(ys, f, n);
    y := ys[n - 1];
    MomentsStep(ys, n);
    e := ResidualsStep(ys, f, n);
  }

  /** The residuals of f sum to Σy - slope Σi - intercept n. */
  lemma {:induction false} ResidualSumForm(ys: seq<real>, f: Line, n: nat)
    requires n <= |ys|
    ensures ResidualsOf(ys, f, n).plain
         == PrefixMoments(ys, n).sy - f.slope * PrefixMoments(ys, n).sx - f.intercept * PrefixMoments(ys, n).n
  {
    if n > 0 {
      ResidualSumForm(ys, f, n - 1);
      ResidualSumStepAt(ys, f, n);
    } else {
      Arith.ZeroCombination(PrefixMoments(ys, n).sy, PrefixMoments(ys, n).sx, PrefixMoments(ys, n).n,
        ResidualsOf(ys, f, n).plain, f.slope, f.intercept);
    }
  }

  lemma ResidualSumStepAt(ys: seq<real>, f: Line, n: nat)
    requires 0 < n <= |ys|
    requires ResidualsOf(ys, f, n - 1).plain
          == PrefixMoments(ys, n - 1).sy - f.slope * PrefixMoments(ys, n - 1).sx
             - f.intercept * PrefixMoments(ys, n - 1).n
    ensures ResidualsOf(ys, f, n).plain
         == PrefixMoments(ys, n).sy - f.slope * PrefixMoments(ys, n).sx - f.intercept * PrefixMoments(ys, n).n
  {
    var m, m', t, t', y, e := PrefixStep(ys, f, n);
    Arith.ResidualStep(m.sy, m.sx, t.plain, m'.sy, m'.sx, t'.plain, y, m.n, m'.n, f.slope, f.intercept, e);
  }

  /** The position-weighted residuals of f sum to Σiy - slope Σi² - intercept Σi. */
  lemma {:induction false} WeightedResidualSumForm(ys: seq<real>, f: Line, n: nat)
    requires n <= |ys|
    ensures ResidualsOf(ys, f, n).weighted
         == PrefixMoments(ys, n).sxy - f.slope * PrefixMoments(ys, n).sxx - f.intercept * PrefixMoments(ys, n).sx
  {
    if n > 0 {
      WeightedResidualSumForm(ys, f, n - 1);
      WeightedResidualSumStepAt(ys, f, n);
    } else {
      Arith.ZeroCombination(PrefixMoments(ys, n).sxy, PrefixMoments(ys, n).sxx, PrefixMoments(ys, n).sx,
        ResidualsOf(ys, f, n).weighted, f.slope, f.intercept);
    }
  }

  lemma WeightedResidualSumStepAt(ys: seq<real>, f: Line, n: nat)
    requires 0 < n <= |ys|
    requires ResidualsOf(ys, f, n - 1).weighted
          == PrefixMoments(ys, n - 1).sxy - f.slope * PrefixMoments(ys, n - 1).sxx
             - f.intercept * PrefixMoments(ys, n - 1).sx
    ensures ResidualsOf(ys, f, n).weighted
         == PrefixMoments(ys, n).sxy - f.slope * PrefixMoments(ys, n).sxx - f.intercept * PrefixMoments(ys, n).sx
  {
    var m, m', t, t', y, e := PrefixStep(ys, f, n);
    Arith.WeightedResidualStep(m.sx, m.sxx, m.sxy, t.weighted, m'.sx, m'.sxx, m'.sxy, t'.weighted,
      y, m.n, f.slope, f.intercept, e);
  }

  /** The fitted line satisfies the normal equations: its residuals sum to
      zero, and so do its residuals weighted by position. */
  lemma NormalEquations(ys: seq<real>)
    requires |ys| > 0
    ensures ResidualSum(ys, FitLine(ys), |ys|) == 0.0
    ensures WeightedResidualSum(ys, FitLine(ys), |ys|) == 0.0
  {
    ResidualSumForm(ys, FitLine(ys), |ys|);
    WeightedResidualSumForm(ys, FitLine(ys), |ys|);
    FitLineNormal(ys);
  }

  /** FitMomentsNormal for the statistics of the whole series. */
  lemma FitLineNormal(ys: seq<real>)
    requires |ys| > 0
    ensures PrefixMoments(ys, |ys|).sy - FitLine(ys).slope * PrefixMoments(ys, |ys|).sx
            - FitLine(ys).intercept * PrefixMoments(ys, |ys|).n == 0.0
    ensures PrefixMoments(ys, |ys|).sxy - FitLine(ys).slope * PrefixMoments(ys, |ys|).sxx
            - FitLine(ys).intercept * PrefixMoments(ys, |ys|).sx == 0.0
  {
    var m, f := FitOf(ys);
    FitMomentsNormal(m, f);
  }

  /** The statistics of the whole series and the line fitted to them. */
  lemma FitOf(ys: seq<real>) returns (m: Moments, f: Line)
    requires |ys| > 0
    ensures m == PrefixMoments(ys, |ys|) && f == FitLine(ys)
    ensures m.n > 0.0 && f == FitMoments(m)
    ensures Spread(m) == 0.0 ==> m.sx == 0.0 && m.sxx == 0.0 && m.sxy == 0.0
  {
    FlatMoments(ys);
    m, f := MomentsOf(ys), FitLine(ys);
  }

  /** How far f lies above g at position i. */
  function Deviation(f: Line, g: Line, i: nat): real {
    Predict(f, i as real) - Predict(g, i as real)
  }

  /** The squared gap between two lines, summed over positions 0..n-1. */
  function Gap(n: nat, f: Line, g: Line): real
  {
    if n == 0 then 0.0 else Gap(n - 1, f, g) + Deviation(f, g, n - 1) * Deviation(f, g, n - 1)
  }

  lemma {:induction false} GapNonNegative(n: nat, f: Line, g: Line)
    ensures Gap(n, f, g) >= 0.0
  {
    if n > 0 {
      GapNonNegative(n - 1, f, g);
      Arith.SquareNonNegative(Deviation(f, g, n - 1));
    }
  }

  /** The sum over positions 0..n-1 of f's residual times the deviation of f
      from g. */
  function CrossSum(ys: seq<real>, f: Line, g: Line, n: nat): real
    requires n <= |ys|
  {
    if n == 0 then 0.0
    else CrossSum(ys, f, g, n - 1) + Residual(ys, f, n - 1) * Deviation(f, g, n - 1)
  }

  /** The line f - g. */
  function Difference(f: Line, g: Line): Line {
    Line(f.slope - g.slope, f.intercept - g.intercept)
  }

  /** The residual of g is that of f plus the deviation of f from g. */
  lemma ResidualShift(ys: seq<real>, f: Line, g: Line, i: nat)
    requires i < |ys|
    ensures Residual(ys, g, i) == Residual(ys, f, i) + Deviation(f, g, i)
  {
  }

  /** The deviation of f from g is the line f - g at the position. */
  lemma DeviationForm(f: Line, g: Line, i: nat)
    ensures Deviation(f, g, i) == Difference(f, g).slope * i as real + Difference(f, g).intercept
  {
    Arith.MulSub(f.slope, g.slope, i as real);
  }

  /** The running totals that compare a line f with a line g over the first
      n values: both squared errors, the cross sum and the gap. */
  datatype Comparison = Comparison(errorF: real, errorG: real, cross: real, gap: real)

  function Compare(ys: seq<real>, f: Line, g: Line, n: nat): Comparison
    requires n <= |ys|
  {
    Comparison(SquaredError(ys, f, n), SquaredError(ys, g, n), CrossSum(ys, f, g, n), Gap(n, f, g))
  }

  lemma ErrorsStep(ys: seq<real>, f: Line, g: Line, n: nat)
    requires 0 < n <= |ys|
    ensures Compare(ys, f, g, n).errorF
         == Compare(ys, f, g, n - 1).errorF + Residual(ys, f, n - 1) * Residual(ys, f, n - 1)
    ensures Compare(ys, f, g, n).errorG
         == Compare(ys, f, g, n - 1).errorG + Residual(ys, g, n - 1) * Residual(ys, g, n - 1)
  {
  }

  lemma CrossStep(ys: seq<real>, f: Line, g: Line, n: nat)
    requires 0 < n <= |ys|
    ensures Compare(ys, f, g, n).cross
         == Compare(ys, f, g, n - 1).cross + Residual(ys, f, n - 1) * Deviation(f, g, n - 1)
  {
  }

  lemma GapStep(ys: seq<real>, f: Line, g: Line, n: nat)
    requires 0 < n <= |ys|
    ensures Compare(ys, f, g, n).gap
         == Compare(ys, f, g, n - 1).gap + Deviation(f, g, n - 1) * Deviation(f, g, n - 1)
  {
  }

  /** Expanding each squared residual of g around the residual of f. */
  lemma {:induction false} SquaredErrorExpansion(ys: seq<real>, f: Line, g: Line, n: nat)
    requires n <= |ys|
    ensures Compare(ys, f, g, n).errorG
         == Compare(ys, f, g, n).errorF + 2.0 * Compare(ys, f, g, n).cross + Compare(ys, f, g, n).gap
  {
    if n > 0 {
      SquaredErrorExpansion(ys, f, g, n - 1);
      ExpansionStepAt(ys, f, g, n);
    } else {
      Arith.ExpansionBase(Compare(ys, f, g, n).errorG, Compare(ys, f, g, n).errorF,
        Compare(ys, f, g, n).cross, Compare(ys, f, g, n).gap);
    }
  }

  lemma ExpansionStepAt(ys: seq<real>, f: Line, g: Line, n: nat)
    requires 0 < n <= |ys|
    requires Compare(ys, f, g, n - 1).errorG
          == Compare(ys, f, g, n - 1).errorF + 2.0 * Compare(ys, f, g, n - 1).cross + Compare(ys, f, g, n - 1).gap
    ensures Compare(ys, f, g, n).errorG
         == Compare(ys, f, g, n).errorF + 2.0 * Compare(ys, f, g, n).cross + Compare(ys, f, g, n).gap
  {
    var rf, rg, d := CompareStep(ys, f, g, n);
    Arith.ExpansionStep(Compare(ys, f, g, n - 1).errorG, Compare(ys, f, g, n - 1).errorF,
      Compare(ys, f, g, n - 1).cross, Compare(ys, f, g, n - 1).gap,
      Compare(ys, f, g, n).errorG, Compare(ys, f, g, n).errorF,
      Compare(ys, f, g, n).cross, Compare(ys, f, g, n).gap,
      rg, rf, d);
  }

  /** One step of the comparison totals, in terms of f's residual rf, g's
      residual rg and the deviation d at position n - 1. */
  lemma CompareStep(ys: seq<real>, f: Line, g: Line, n: nat) returns (rf: real, rg: real, d: real)
    requires 0 < n <= |ys|
    ensures rg == rf + d
    ensures Compare(ys, f, g, n).errorF == Compare(ys, f, g, n - 1).errorF + rf * rf
    ensures Compare(ys, f, g, n).errorG == Compare(ys, f, g, n - 1).errorG + rg * rg
    ensures Compare(ys, f, g, n).cross == Compare(ys, f, g, n - 1).cross + rf * d
    ensures Compare(ys, f, g, n).gap == Compare(ys, f, g, n - 1).gap + d * d
  {
    rf, rg, d := Residual(ys, f, n - 1), Residual(ys, g, n - 1), Deviation(f, g, n - 1);
    ResidualShift(ys, f, g, n - 1);
    ErrorsStep(ys, f, g, n);
    CrossStep(ys, f, g, n);
    GapStep(ys, f, g, n);
  }

  /** The cross term is a combination of f's two residual sums. */
  lemma {:induction false} CrossSumForm(ys: seq<real>, f: Line, g: Line, n: nat)
    requires n <= |ys|
    ensures Compare(ys, f, g, n).cross
         == Difference(f, g).slope * ResidualsOf(ys, f, n).weighted
            + Difference(f, g).intercept * ResidualsOf(ys, f, n).plain
  {
    if n > 0 {
      CrossSumForm(ys, f, g, n - 1);
      CrossSumStepAt(ys, f, g, n);
    } else {
      Arith.CrossBase(Compare(ys, f, g, n).cross, ResidualsOf(ys, f, n).weighted, ResidualsOf(ys, f, n).plain,
        Difference(f, g).slope, Difference(f, g).intercept);
    }
  }

  lemma CrossSumStepAt(ys: seq<real>, f: Line, g: Line, n: nat)
    requires 0 < n <= |ys|
    requires Compare(ys, f, g, n - 1).cross
          == Difference(f, g).slope * ResidualsOf(ys, f, n - 1).weighted
             + Difference(f, g).intercept * ResidualsOf(ys, f, n - 1).plain
    ensures Compare(ys, f, g, n).cross
         == Difference(f, g).slope * ResidualsOf(ys, f, n).weighted
            + Difference(f, g).intercept * ResidualsOf(ys, f, n).plain
  {
    var h := Difference(f, g);
    var c, w, r, c', w', r', e, d := CrossTermsStep(ys, f, g, n);
    Arith.CrossStep(c, w, r, c', w', r', e, d, (n - 1) as real, h.slope, h.intercept);
  }

  /** One step of the cross sum c and of f's residual totals w and r, in
      terms of f's residual e and the deviation d at position n - 1; the
      primed names are the totals after the step. */
  lemma CrossTermsStep(ys: seq<real>, f: Line, g: Line, n: nat)
      returns (c: real, w: real, r: real, c': real, w': real, r': real, e: real, d: real)
    requires 0 < n <= |ys|
    ensures c == Compare(ys, f, g, n - 1).cross && c' == Compare(ys, f, g, n).cross
    ensures w == ResidualsOf(ys, f, n - 1).weighted && w' == ResidualsOf(ys, f, n).weighted
    ensures r == ResidualsOf(ys, f, n - 1).plain && r' == ResidualsOf(ys, f, n).plain
    ensures d == Difference(f, g).slope * (n - 1) as real + Difference(f, g).intercept
    ensures c' == c + e * d && w' == w + (n - 1) as real * e && r' == r + e
  {
    c, c' := Compare(ys, f, g, n - 1).cross, Compare(ys, f, g, n).cross;
    w, w' := ResidualsOf(ys, f, n - 1).weighted, ResidualsOf(ys, f, n).weighted;
    r, r' := ResidualsOf(ys, f, n - 1).plain, ResidualsOf(ys, f, n).plain;
    d := Deviation(f, g, n - 1);
    DeviationForm(f, g, n - 1);
    CrossStep(ys, f, g, n);
    e := ResidualsStep(ys, f, n);
  }

  /** The error of any line g splits into the error of f, a cross term in
      f's two residual sums, and the gap between the lines. */
  lemma SquaredErrorSplit(ys: seq<real>, f: Line, g: Line)
    ensures SquaredError(ys, g, |ys|) == SquaredError(ys, f, |ys|)
      + 2.0 * (Difference(f, g).slope * WeightedResidualSum(ys, f, |ys|)
               + Difference(f, g).intercept * ResidualSum(ys, f, |ys|))
      + Gap(|ys|, f, g)
  {
    SquaredErrorExpansion(ys, f, g, |ys|);
    CrossSumForm(ys, f, g, |ys|);
  }

  /** Least squares: no line has a smaller sum of squared residuals than the
      fitted one. */
  lemma FitIsLeastSquares(ys: seq<real>, g: Line)
    requires |ys| > 0
    ensures SquaredError(ys, FitLine(ys), |ys|) <= SquaredError(ys, g, |ys|)
  {
    var f := FitLine(ys);
    NormalEquations(ys);
    SquaredErrorSplit(ys, f, g);
    GapNonNegative(|ys|, f, g);
    Arith.NoBetterLine(SquaredError(ys, g, |ys|), SquaredError(ys, f, |ys|),
      Difference(f, g).slope, WeightedResidualSum(ys, f, |ys|),
      Difference(f, g).intercept, ResidualSum(ys, f, |ys|), Gap(|ys|, f, g));
  }

  ghost predicate OnLine(ys: seq<real>, a: real, b: real) {
    forall i :: 0 <= i < |ys| ==> ys[i] == a * i as real + b
  }

  /** Values on a line leave that line no residual. */
  lemma {:induction false} ZeroResidualSums(ys: seq<real>, a: real, b: real, n: nat)
    requires n <= |ys|
    requires OnLine(ys, a, b)
    ensures ResidualsOf(ys, Line(a, b), n) == ResidualTotals(0.0, 0.0)
  {
    if n > 0 {
      ZeroResidualSums(ys, a, b, n - 1);
      var e := ResidualsStep(ys, Line(a, b), n);
      assert e == 0.0;
    }
  }

  /** Values that lie exactly on a line a * i + b give back that line, once
      there are at least two of them. */
  lemma FitReproducesLine(ys: seq<real>, a: real, b: real)
    requires |ys| >= 2
    requires OnLine(ys, a, b)
    ensures FitLine(ys) == Line(a, b)
  {
    ZeroResidualSums(ys, a, b, |ys|);
    ZeroResidualsIsFit(ys, Line(a, b));
  }

  /** Conversely to NormalEquations: once there are two values, a line
      whose residuals and position-weighted residuals both sum to zero is
      the fitted line. */
  lemma ZeroResidualsIsFit(ys: seq<real>, g: Line)
    requires |ys| >= 2
    requires ResidualsOf(ys, g, |ys|) == ResidualTotals(0.0, 0.0)
    ensures FitLine(ys) == g
  {
    ResidualSumForm(ys, g, |ys|);
    WeightedResidualSumForm(ys, g, |ys|);
    SpreadSign(ys);
    FitMomentsUnique(MomentsOf(ys), g);
  }

  // The forecast.

  /** A forecast point: its date and the predicted count. */
  datatype ForecastPoint = ForecastPoint(date: Day, predicted: real)

  /** Fitting raises on a series with no rows. */
  datatype ForecastError = EmptySeries

  /** Lines 48-53: the line fitted to the counts, evaluated at the positions
      n, n+1 and n+2, dated 30, 60 and 90 days after the last row. */
  function Forecast(s: seq<Record>): (r: Result<seq<ForecastPoint>, ForecastError>)
    ensures r.Failure? <==> s == []
    ensures r.Success? ==> |r.value| == Horizon
    ensures r.Success? ==> forall k :: 0 <= k < Horizon ==>
      r.value[k].date == s[|s| - 1].date + StepDays * (k + 1) &&
      r.value[k].predicted == Predict(FitLine(Counts(s)), (|s| + k) as real)
  {
    if s == [] then Failure(EmptySeries)
    else
      var f := FitLine(Counts(s));
      var last := s[|s| - 1].date;
      Success(seq(Horizon, k requires 0 <= k < Horizon =>
        ForecastPoint(last + StepDays * (k + 1), Predict(f, (|s| + k) as real))))
  }

  /** The forecast dates strictly increase and, for a series ordered by date,
      all come after every observation. */
  lemma ForecastDatesFollowSeries(s: seq<Record>)
    requires SortedByDate(s)
    requires Forecast(s).Success?
    ensures forall k, l :: 0 <= k < l < Horizon ==>
      Forecast(s).value[k].date < Forecast(s).value[l].date
    ensures forall k, i :: 0 <= k < Horizon && 0 <= i < |s| ==>
      s[i].date < Forecast(s).value[k].date
  {
    var pts := Forecast(s).value;
    assert forall i :: 0 <= i < |s| ==> s[i].date <= s[|s| - 1].date;
  }

  /** Counts that lie on a line are continued along it: the forecasts are
      a * n + b, a * (n + 1) + b and a * (n + 2) + b. */
  lemma ForecastContinuesLine(s: seq<Record>, a: real, b: real)
    requires |s| >= 2
    requires forall i :: 0 <= i < |s| ==> s[i].count == a * i as real + b
    ensures Forecast(s).Success?
    ensures forall k :: 0 <= k < Horizon ==>
      Forecast(s).value[k].predicted == a * (|s| + k) as real + b
  {
    assert OnLine(Counts(s), a, b);
    FitReproducesLine(Counts(s), a, b);
    ForecastAlong(s, a, b);
  }

  /** The forecasts lie on the fitted line. */
  lemma ForecastAlong(s: seq<Record>, a: real, b: real)
    requires s != [] && FitLine(Counts(s)) == Line(a, b)
    ensures Forecast(s).Success?
    ensures forall k :: 0 <= k < Horizon ==>
      Forecast(s).value[k].predicted == a * (|s| + k) as real + b
  {
  }

  /** Counts 10, 20, 30, 40 are forecast as 50, 60, 70. */
  lemma TenStepExample(s: seq<Record>)
    requires |s| == 4
    requires s[0].count == 10.0 && s[1].count == 20.0 && s[2].count == 30.0 && s[3].count == 40.0
    ensures Forecast(s).Success?
    ensures Forecast(s).value[0].predicted == 50.0
    ensures Forecast(s).value[1].predicted == 60.0
    ensures Forecast(s).value[2].predicted == 70.0
  {
    ForecastContinuesLine(s, 10.0, 10.0);
  }

  /** `int(x)` on a float: truncation toward zero. */
  function TruncateTowardZero(x: real): (t: int)
    ensures x >= 0.0 ==> 0 <= t && t as real <= x < t as real + 1.0
    ensures x < 0.0 ==> t <= 0 && t as real - 1.0 < x <= t as real
  {
    if x >= 0.0 then x.Floor else -((-x).Floor)
  }

  /** A forecast as line 74 shows it: the month label of its date and the
      prediction truncated toward zero. */
  datatype ForecastLine = ForecastLine(month: string, expected: int)

  function DisplayForecast(pts: seq<ForecastPoint>, monthOf: Day -> string): (lines: seq<ForecastLine>)
    ensures |lines| == |pts|
    ensures forall k :: 0 <= k < |pts| ==>
      lines[k].month == monthOf(pts[k].date) && lines[k].expected == TruncateTowardZero(pts[k].predicted)
  {
    seq(|pts|, k requires 0 <= k < |pts| =>
      ForecastLine(monthOf(pts[k].date), TruncateTowardZero(pts[k].predicted)))
  }
}
