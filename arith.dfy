/** Identities over real numbers used by the least-squares proofs, each
    stated over plain variables so that the solver sees only the algebra. */
module Arith {

  /** One more copy of y: from j * y to m * y with m = j + 1. */
  lemma ProductStep(j: real, m: real, y: real, t: real)
    requires m == j + 1.0 && t == j * y
    ensures t + y == m * y
  {
  }

  /** One step of 0 + 1 + ... + (m - 1) = m (m - 1) / 2. */
  lemma GaussStep(m: real, s: real)
    requires 2.0 * s == (m - 1.0) * (m - 1.0 - 1.0)
    ensures 2.0 * (s + (m - 1.0)) == m * (m - 1.0)
  {
  }

  /** One step of 0² + ... + (m - 1)² = (m - 1) m (2m - 1) / 6. */
  lemma SquaresStep(m: real, s: real)
    requires 6.0 * s == (m - 1.0 - 1.0) * (m - 1.0) * (2.0 * (m - 1.0) - 1.0)
    ensures 6.0 * (s + (m - 1.0) * (m - 1.0)) == (m - 1.0) * m * (2.0 * m - 1.0)
  {
  }

  /** With the two closed forms, m Σi² - (Σi)² is m²(m²-1)/12. */
  lemma DenominatorForm(m: real, sx: real, sxx: real)
    requires m >= 0.0
    requires 2.0 * sx == m * (m - 1.0)
    requires 6.0 * sxx == (m - 1.0) * m * (2.0 * m - 1.0)
    ensures m == 0.0 || m == 1.0 ==> m * sxx - sx * sx == 0.0
    ensures m >= 2.0 ==> m * sxx - sx * sx > 0.0
  {
    assert 12.0 * (m * sxx - sx * sx) == 2.0 * m * (6.0 * sxx) - 3.0 * (2.0 * sx) * (2.0 * sx);
    assert 12.0 * (m * sxx - sx * sx) == m * m * ((m - 1.0) * (m + 1.0));
    if m >= 2.0 {
      assert m * m > 0.0;
      assert (m - 1.0) * (m + 1.0) > 0.0;
    }
  }

  lemma DivThenMul(t: real, n: real)
    requires n != 0.0
    ensures (t / n) * n == t
  {
  }

  /** Extending the residual sum r of the first k values by the residual e
      of one value y at position k gives the sum q of the first m values. */
  lemma ResidualStep(sy: real, sx: real, r: real, ty: real, tx: real, q: real,
                     y: real, k: real, m: real, a: real, b: real, e: real)
    requires m == k + 1.0
    requires r == sy - a * sx - b * k
    requires ty == sy + y && tx == sx + k
    requires e == y - (a * k + b) && q == r + e
    ensures q == ty - a * tx - b * m
  {
  }

  /** With every sum zero, so is every combination of them. */
  lemma ZeroCombination(z: real, x: real, y: real, r: real, a: real, b: real)
    requires z == 0.0 && x == 0.0 && y == 0.0 && r == 0.0
    ensures r == z - a * x - b * y
  {
  }

  /** The same for the residuals weighted by position. */
  lemma WeightedResidualStep(sx: real, sxx: real, sxy: real, r: real,
                             tx: real, txx: real, txy: real, q: real,
                             y: real, k: real, a: real, b: real, e: real)
    requires r == sxy - a * sxx - b * sx
    requires tx == sx + k && txx == sxx + k * k && txy == sxy + k * y
    requires e == y - (a * k + b) && q == r + k * e
    ensures q == txy - a * txx - b * tx
  {
  }

  /** The normal equations hold for the closed-form slope and intercept. */
  lemma NormalAlgebra(n: real, sx: real, sxx: real, sy: real, sxy: real, den: real, a: real, b: real)
    requires n > 0.0
    requires den == n * sxx - sx * sx
    requires a * den == n * sxy - sx * sy
    requires b * n == sy - a * sx
    ensures sxy - a * sxx - b * sx == 0.0
  {
    var r := sxy - a * sxx - b * sx;
    assert n * r == n * sxy - a * (n * sxx) - sx * (b * n);
    assert n * r == (n * sxy - sx * sy) - a * den;
  }

  /** The least-squares slope a and intercept b computed from the sums n,
      Σi, Σi², Σy and Σiy (slope 0 when the positions do not vary) make
      both residual sums zero. */
  lemma FitAlgebra(n: real, sx: real, sxx: real, sy: real, sxy: real, den: real, a: real, b: real)
    requires n > 0.0
    requires den == n * sxx - sx * sx
    requires den == 0.0 ==> sx == 0.0 && sxx == 0.0 && sxy == 0.0
    requires a == if den == 0.0 then 0.0 else (n * sxy - sx * sy) / den
    requires b == (sy - a * sx) / n
    ensures sy - a * sx - b * n == 0.0
    ensures sxy - a * sxx - b * sx == 0.0
  {
    DivThenMul(sy - a * sx, n);
    if den != 0.0 {
      DivThenMul(n * sxy - sx * sy, den);
      NormalAlgebra(n, sx, sxx, sy, sxy, den, a, b);
    }
  }

  /** One step of expanding g's squared residuals around f's: eg, ef, c and
      gap are the sums so far, the primed names the sums extended by g's
      residual rg, f's residual rf and their difference d. */
  lemma ExpansionStep(eg: real, ef: real, c: real, gap: real,
                      eg': real, ef': real, c': real, gap': real,
                      rg: real, rf: real, d: real)
    requires eg == ef + 2.0 * c + gap
    requires rg == rf + d
    requires eg' == eg + rg * rg && ef' == ef + rf * rf
    requires c' == c + rf * d && gap' == gap + d * d
    ensures eg' == ef' + 2.0 * c' + gap'
  {
    SquareOfSum(rg, rf, d);
  }

  lemma ExpansionBase(eg: real, ef: real, c: real, gap: real)
    requires eg == 0.0 && ef == 0.0 && c == 0.0 && gap == 0.0
    ensures eg == ef + 2.0 * c + gap
  {
  }

  /** One step of the cross term: with the deviation d = p k + q at
      position k, the sum c of residual times deviation stays p w + q r. */
  lemma CrossStep(c: real, w: real, r: real, c': real, w': real, r': real,
                  e: real, d: real, k: real, p: real, q: real)
    requires c == p * w + q * r
    requires d == p * k + q
    requires c' == c + e * d && w' == w + k * e && r' == r + e
    ensures c' == p * w' + q * r'
  {
    CrossTerm(e, d, p, k, q);
    Distribute(p, w', w, k * e);
    Distribute(q, r', r, e);
  }

  lemma CrossBase(c: real, w: real, r: real, p: real, q: real)
    requires c == 0.0 && w == 0.0 && r == 0.0
    ensures c == p * w + q * r
  {
  }

  /** When both residual sums of f vanish, g's error exceeds f's by the
      gap alone. */
  lemma NoBetterLine(eg: real, ef: real, p: real, w: real, q: real, r: real, gap: real)
    requires eg == ef + 2.0 * (p * w + q * r) + gap
    requires w == 0.0 && r == 0.0 && gap >= 0.0
    ensures ef <= eg
  {
    TimesZero(p, w);
    TimesZero(q, r);
  }

  lemma TimesZero(x: real, z: real)
    requires z == 0.0
    ensures x * z == 0.0
  {
  }

  lemma SquareNonNegative(x: real)
    ensures x * x >= 0.0
  {
  }

  lemma MulSub(x: real, y: real, k: real)
    ensures (x - y) * k == x * k - y * k
  {
  }

  lemma SquareOfSum(s: real, x: real, y: real)
    requires s == x + y
    ensures s * s == x * x + 2.0 * (x * y) + y * y
  {
  }

  lemma CrossTerm(e: real, d: real, p: real, k: real, q: real)
    requires d == p * k + q
    ensures e * d == p * (k * e) + q * e
  {
  }

  lemma Distribute(c: real, s: real, x: real, y: real)
    requires s == x + y
    ensures c * s == c * x + c * y
  {
  }

  /** Sums of values on the line a i + b give back a and b, once the
      positions vary: s, the closed-form slope, is a, and the closed-form
      intercept is then b. */
  lemma LineAlgebra(n: real, sx: real, sxx: real, sy: real, sxy: real, den: real,
                    a: real, b: real, s: real)
    requires n > 0.0
    requires den == n * sxx - sx * sx && den > 0.0
    requires sy - a * sx - b * n == 0.0
    requires sxy - a * sxx - b * sx == 0.0
    requires s == if den == 0.0 then 0.0 else (n * sxy - sx * sy) / den
    ensures s == a
    ensures (sy - s * sx) / n == b
  {
    assert n * sxy - sx * sy == n * (a * sxx + b * sx) - sx * (a * sx + b * n);
    assert n * sxy - sx * sy == a * den;
  }
}
