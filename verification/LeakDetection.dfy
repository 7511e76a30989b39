/**
 The trend test of the memory-leak detector: a least-squares slope over samples at 0, 1, 2, ...
 whose sums over the positions are computed by closed forms. Arithmetic is exact here. Formulas
 are functions of their own, so that proofs can treat them as units.
 */
module LeakDetection {
  import opened Options

  // ------------------------------------------------------------------ sums

  function Product(a: real, b: real): real {
    a * b
  }

  function SumY(ys: seq<real>): real {
    if ys == [] then 0.0 else SumY(ys[..|ys| - 1]) + ys[|ys| - 1]
  }

  function SumXY(ys: seq<real>): real {
    if ys == [] then 0.0 else SumXY(ys[..|ys| - 1]) + Product((|ys| - 1) as real, ys[|ys| - 1])
  }

  /** The sums that the closed forms stand for. */
  ghost function SumX(n: nat): real {
    if n == 0 then 0.0 else SumX(n - 1) + (n - 1) as real
  }

  ghost function SumXX(n: nat): real {
    if n == 0 then 0.0 else SumXX(n - 1) + Product((n - 1) as real, (n - 1) as real)
  }

  function ClosedSumX(n: real): real {
    n * (n - 1.0) / 2.0
  }

  function ClosedSumXX(n: real): real {
    n * (n - 1.0) * (2.0 * n - 1.0) / 6.0
  }

  lemma ClosedStep(n: real)
    ensures ClosedSumX(n) == ClosedSumX(n - 1.0) + (n - 1.0)
    ensures ClosedSumXX(n) == ClosedSumXX(n - 1.0) + Product(n - 1.0, n - 1.0)
  {
    assert n * (n - 1.0) == (n - 1.0) * (n - 2.0) + 2.0 * (n - 1.0);
    assert n * (n - 1.0) * (2.0 * n - 1.0)
        == (n - 1.0) * (n - 2.0) * (2.0 * n - 3.0) + 6.0 * (n - 1.0) * (n - 1.0);
  }

  /** The closed forms are the sums. */
  lemma {:induction false} ClosedForms(n: nat)
    ensures ClosedSumX(n as real) == SumX(n) && ClosedSumXX(n as real) == SumXX(n)
  {
    if n > 0 {
      hide ClosedSumX, ClosedSumXX, Product;
      ClosedForms(n - 1);
      ClosedStep(n as real);
      assert (n - 1) as real == n as real - 1.0;
    }
  }

  function Determinant(n: real, sx: real, sxx: real): real {
    n * sxx - sx * sx
  }

  /** The denominator of the slope is n * n * (n * n - 1) / 12. */
  lemma DeterminantValue(x: real)
    ensures Determinant(x, ClosedSumX(x), ClosedSumXX(x)) == (x * x) * (x * x - 1.0) / 12.0
  {
    var p, q := x * (x - 1.0), x * x;
    assert p == q - x;
    assert x * (p * (2.0 * x - 1.0)) == p * (2.0 * q - x);
    assert p * p == p * (q - x);
    var d := Determinant(x, ClosedSumX(x), ClosedSumXX(x));
    assert d == p * (2.0 * q - x) / 6.0 - p * p / 4.0;
    assert p * (2.0 * q - x) == 2.0 * (p * q) - p * x && p * (q - x) == p * q - p * x;
    assert d == (p * q + p * x) / 12.0;
    assert p * x == x * p && x * p == x * q - q && p * q == q * q - x * q;
  }

  /** It is positive exactly when there are at least two samples, and zero otherwise. */
  lemma DeterminantSign(n: nat)
    ensures
      var d := Determinant(n as real, ClosedSumX(n as real), ClosedSumXX(n as real));
      if n >= 2 then d > 0.0 else d == 0.0
  {
    var x := n as real;
    DeterminantValue(x);
    hide *;
    if n >= 2 {
      assert x * x >= 4.0;
      PositiveProduct(x * x, x * x - 1.0);
    } else {
      assert x == 0.0 || x == 1.0;
      assert (x * x) * (x * x - 1.0) == 0.0;
    }
  }

  lemma PositiveProduct(a: real, b: real)
    requires a > 0.0 && b > 0.0
    ensures a * b > 0.0
  {
  }

  // ------------------------------------------------------------------ the error of a line

  function Square(e: real): (r: real)
    ensures r >= 0.0
  {
    e * e
  }

  /** How far the point lies above the line. */
  function Above(x: real, y: real, a: real, b: real): real {
    y - a * x - b
  }

  ghost function LastResidual(ys: seq<real>, a: real, b: real): real
    requires ys != []
  {
    Above((|ys| - 1) as real, ys[|ys| - 1], a, b)
  }

  /** The squared error of the line with slope `a` and intercept `b`. */
  ghost function Error(ys: seq<real>, a: real, b: real): real {
    if ys == [] then 0.0 else Error(ys[..|ys| - 1], a, b) + Square(LastResidual(ys, a, b))
  }

  /** No line has a smaller error. */
  ghost predicate IsBestLine(ys: seq<real>, a: real, b: real) {
    forall a', b' :: Error(ys, a, b) <= Error(ys, a', b')
  }

  ghost predicate IsLeastSquaresSlope(ys: seq<real>, slope: real) {
    exists b :: IsBestLine(ys, slope, b)
  }

  /** The sum of the residuals of a line, from the sums over the samples. */
  function ResidualSum(n: real, sx: real, sy: real, a: real, b: real): real {
    sy - a * sx - b * n
  }

  /** The same sum weighted with the positions. */
  function WeightedSum(sx: real, sxx: real, sxy: real, a: real, b: real): real {
    sxy - a * sxx - b * sx
  }

  ghost function Residuals(ys: seq<real>, a: real, b: real): real {
    ResidualSum(|ys| as real, SumX(|ys|), SumY(ys), a, b)
  }

  ghost function WeightedResiduals(ys: seq<real>, a: real, b: real): real {
    WeightedSum(SumX(|ys|), SumXX(|ys|), SumXY(ys), a, b)
  }

  /** The part of the error that is linear in a move of the line by `u` and `v`. */
  function Gain(weighted: real, residual: real, u: real, v: real): real {
    2.0 * u * weighted + 2.0 * v * residual
  }

  lemma GainAdds(w: real, r: real, dw: real, dr: real, u: real, v: real)
    ensures Gain(w + dw, r + dr, u, v) == Gain(w, r, u, v) + Gain(dw, dr, u, v)
    ensures Gain(0.0, 0.0, u, v) == 0.0
  {
  }

  lemma SumsAdd(n: real, sx: real, sy: real, sxx: real, sxy: real, x: real, y: real, a: real, b: real)
    ensures ResidualSum(n + 1.0, sx + x, sy + y, a, b) == ResidualSum(n, sx, sy, a, b) + Above(x, y, a, b)
    ensures WeightedSum(sx + x, sxx + Product(x, x), sxy + Product(x, y), a, b)
         == WeightedSum(sx, sxx, sxy, a, b) + Product(x, Above(x, y, a, b))
  {
    assert x * (y - a * x - b) == x * y - a * (x * x) - b * x;
  }

  lemma NoResiduals(a: real, b: real)
    ensures ResidualSum(0.0, 0.0, 0.0, a, b) == 0.0 && WeightedSum(0.0, 0.0, 0.0, a, b) == 0.0
  {
  }

  lemma ResidualsStep(ys: seq<real>, a: real, b: real)
    requires ys != []
    ensures
      var front, x, e := ys[..|ys| - 1], (|ys| - 1) as real, LastResidual(ys, a, b);
      && Residuals(ys, a, b) == Residuals(front, a, b) + e
      && WeightedResiduals(ys, a, b) == WeightedResiduals(front, a, b) + Product(x, e)
  {
    var front, n := ys[..|ys| - 1], |ys| - 1;
    hide Product, ResidualSum, WeightedSum, Above;
    assert |ys| as real == n as real + 1.0;
    SumsAdd(n as real, SumX(n), SumY(front), SumXX(n), SumXY(front), n as real, ys[n], a, b);
  }

  function OnLine(m: real, c: real, x: real): real {
    m * x + c
  }

  /** How far apart two lines are at the positions below `n`. */
  ghost function Spread(n: nat, u: real, v: real): (r: real)
    ensures r >= 0.0
  {
    if n == 0 then 0.0 else Spread(n - 1, u, v) + Square(OnLine(u, v, (n - 1) as real))
  }

  /** Different lines are apart as soon as there are two positions. */
  lemma {:induction false} SpreadIsPositive(n: nat, u: real, v: real)
    requires n >= 2 && Spread(n, u, v) == 0.0
    ensures u == 0.0
  {
    if n == 2 {
      assert Spread(1, u, v) == Square(OnLine(u, v, 0.0)) && Spread(0, u, v) == 0.0;
      assert Spread(2, u, v) == Spread(1, u, v) + Square(OnLine(u, v, 1.0));
      SquareIsZero(OnLine(u, v, 0.0));
      SquareIsZero(OnLine(u, v, 1.0));
    } else {
      SpreadIsPositive(n - 1, u, v);
    }
  }

  lemma SquareIsZero(e: real)
    requires Square(e) == 0.0
    ensures e == 0.0
  {
    SquareIsProduct(e);
    hide *;
    if e != 0.0 {
      SameSignProduct(e, e);
    }
  }

  lemma SquareIsProduct(e: real)
    ensures Square(e) == Product(e, e)
  {
  }

  lemma SameSignProduct(a: real, b: real)
    requires (a > 0.0 && b > 0.0) || (a < 0.0 && b < 0.0)
    ensures Product(a, b) > 0.0
  {
  }

  lemma MovedTerm(x: real, y: real, a: real, b: real, u: real, v: real)
    ensures
      var e := Above(x, y, a, b);
      Square(Above(x, y, a - u, b - v)) == Square(e) + Gain(Product(x, e), e, u, v) + Square(OnLine(u, v, x))
  {
    var e, w := Above(x, y, a, b), u * x + v;
    assert Above(x, y, a - u, b - v) == e + w;
    SquareOfSum(e, x, u, v);
  }

  lemma SquareOfSum(e: real, x: real, u: real, v: real)
    ensures Square(e + (u * x + v)) == Square(e) + Gain(Product(x, e), e, u, v) + Square(OnLine(u, v, x))
  {
    var w := u * x + v;
    assert (e + w) * (e + w) == e * e + 2.0 * (w * e) + w * w;
    assert w * e == u * (x * e) + v * e;
  }

  /** Moving a line changes its error by the gain and a sum of squares. */
  lemma {:induction false} ErrorAfterMove(ys: seq<real>, a: real, b: real, u: real, v: real)
    ensures Error(ys, a - u, b - v)
         == Error(ys, a, b) + Gain(WeightedResiduals(ys, a, b), Residuals(ys, a, b), u, v) + Spread(|ys|, u, v)
  {
    hide Product, ResidualSum, WeightedSum, Above, Square, Gain, OnLine;
    if ys == [] {
      NoResiduals(a, b);
      GainAdds(0.0, 0.0, 0.0, 0.0, u, v);
    } else {
      var front, x, e := ys[..|ys| - 1], (|ys| - 1) as real, LastResidual(ys, a, b);
      ErrorAfterMove(front, a, b, u, v);
      ResidualsStep(ys, a, b);
      MovedTerm(x, ys[|ys| - 1], a, b, u, v);
      hide WeightedResiduals, Residuals;
      GainAdds(WeightedResiduals(front, a, b), Residuals(front, a, b), Product(x, e), e, u, v);
    }
  }

  // ------------------------------------------------------------------ the least-squares line

  function SlopeOf(n: real, sx: real, sy: real, sxx: real, sxy: real): real
    requires Determinant(n, sx, sxx) != 0.0
  {
    (n * sxy - sx * sy) / Determinant(n, sx, sxx)
  }

  /** The slope as the program computes it. */
  function Slope(ys: seq<real>): real
    requires |ys| >= 2
  {
    DeterminantSign(|ys|);
    var n := |ys| as real;
    SlopeOf(n, ClosedSumX(n), SumY(ys), ClosedSumXX(n), SumXY(ys))
  }

  function InterceptOf(n: real, sx: real, sy: real, slope: real): real
    requires n != 0.0
  {
    (sy - slope * sx) / n
  }

  /** The residuals of the computed line cancel out, and so do the weighted ones. */
  lemma NormalEquations(ys: seq<real>, b: real)
    requires |ys| >= 2 && b == InterceptOf(|ys| as real, SumX(|ys|), SumY(ys), Slope(ys))
    ensures Residuals(ys, Slope(ys), b) == 0.0 && WeightedResiduals(ys, Slope(ys), b) == 0.0
  {
    ClosedForms(|ys|);
    DeterminantSign(|ys|);
    hide SlopeOf, InterceptOf, Determinant, ClosedSumX, ClosedSumXX, SumX, SumXX, SumY, SumXY, ResidualSum, WeightedSum;
    SolveNormalEquations(|ys| as real, SumX(|ys|), SumY(ys), SumXX(|ys|), SumXY(ys));
  }

  lemma SolveNormalEquations(n: real, sx: real, sy: real, sxx: real, sxy: real)
    requires n > 0.0 && Determinant(n, sx, sxx) > 0.0
    ensures
      var s := SlopeOf(n, sx, sy, sxx, sxy);
      var i := InterceptOf(n, sx, sy, s);
      ResidualSum(n, sx, sy, s, i) == 0.0 && WeightedSum(sx, sxx, sxy, s, i) == 0.0
  {
    var s := SlopeOf(n, sx, sy, sxx, sxy);
    var i := InterceptOf(n, sx, sy, s);
    var d := Determinant(n, sx, sxx);
    DivideBack(n * sxy - sx * sy, d);
    DivideBack(sy - s * sx, n);
    assert s * d == n * sxy - sx * sy && i * n == sy - s * sx;
    Eliminate(n, sx, sy, sxx, sxy, s, i);
  }

  lemma DivideBack(a: real, d: real)
    requires d != 0.0
    ensures (a / d) * d == a
  {
  }

  lemma Eliminate(n: real, sx: real, sy: real, sxx: real, sxy: real, s: real, i: real)
    requires n > 0.0 && s * (n * sxx - sx * sx) == n * sxy - sx * sy && i * n == sy - s * sx
    ensures sxy - s * sxx - i * sx == 0.0
  {
    assert n * (i * sx) == (i * n) * sx;
    assert (sy - s * sx) * sx == sx * sy - s * (sx * sx);
    assert n * (s * sxx) == s * (n * sxx);
    assert s * (n * sxx - sx * sx) == s * (n * sxx) - s * (sx * sx);
    assert n * (sxy - s * sxx - i * sx) == n * sxy - n * (s * sxx) - n * (i * sx);
    ZeroFactor(n, sxy - s * sxx - i * sx);
  }

  lemma ZeroFactor(n: real, x: real)
    requires n > 0.0 && n * x == 0.0
    ensures x == 0.0
  {
  }

  /** Any other line errs by the spread between the two more than the computed one. */
  lemma ErrorBesideBest(ys: seq<real>, b: real, a': real, b': real)
    requires |ys| >= 2 && b == InterceptOf(|ys| as real, SumX(|ys|), SumY(ys), Slope(ys))
    ensures Error(ys, a', b') == Error(ys, Slope(ys), b) + Spread(|ys|, Slope(ys) - a', b - b')
  {
    var s := Slope(ys);
    NormalEquations(ys, b);
    hide *;
    ErrorAfterMove(ys, s, b, s - a', b - b');
    GainAdds(0.0, 0.0, 0.0, 0.0, s - a', b - b');
    assert s - (s - a') == a' && b - (b - b') == b';
  }

  /** The computed slope, and no other one, belongs to a line with the least squared error of all lines. */
  lemma SlopeIsLeastSquares(ys: seq<real>, slope: real)
    requires |ys| >= 2
    ensures IsLeastSquaresSlope(ys, slope) <==> slope == Slope(ys)
  {
    var s, i := Slope(ys), InterceptOf(|ys| as real, SumX(|ys|), SumY(ys), Slope(ys));
    hide Slope, SlopeOf, InterceptOf, Error, Spread, SumX, SumY;
    forall a', b'
      ensures Error(ys, a', b') == Error(ys, s, i) + Spread(|ys|, s - a', i - b')
    {
      ErrorBesideBest(ys, i, a', b');
    }
    assert IsBestLine(ys, s, i);
    if IsLeastSquaresSlope(ys, slope) {
      var b :| IsBestLine(ys, slope, b);
      assert Error(ys, slope, b) <= Error(ys, s, i);
      SpreadIsPositive(|ys|, s - slope, i - b);
    }
  }

  // ------------------------------------------------------------------ samples on a line

  function LineSumY(n: real, sx: real, m: real, c: real): real {
    m * sx + c * n
  }

  function LineSumXY(sx: real, sxx: real, m: real, c: real): real {
    m * sxx + c * sx
  }

  lemma LineSumsAdd(n: real, sx: real, sxx: real, x: real, m: real, c: real)
    ensures LineSumY(n + 1.0, sx + x, m, c) == LineSumY(n, sx, m, c) + OnLine(m, c, x)
    ensures LineSumXY(sx + x, sxx + Product(x, x), m, c) == LineSumXY(sx, sxx, m, c) + Product(x, OnLine(m, c, x))
    ensures LineSumY(0.0, 0.0, m, c) == 0.0 && LineSumXY(0.0, 0.0, m, c) == 0.0
  {
    assert x * (m * x + c) == m * (x * x) + c * x;
  }

  lemma {:induction false} SumsOfLine(ys: seq<real>, m: real, c: real)
    requires forall k :: 0 <= k < |ys| ==> ys[k] == OnLine(m, c, k as real)
    ensures SumY(ys) == LineSumY(|ys| as real, SumX(|ys|), m, c)
    ensures SumXY(ys) == LineSumXY(SumX(|ys|), SumXX(|ys|), m, c)
  {
    hide OnLine, LineSumY, LineSumXY, Product;
    if ys == [] {
      LineSumsAdd(0.0, 0.0, 0.0, 0.0, m, c);
    } else {
      var front, n := ys[..|ys| - 1], |ys| - 1;
      SumsOfLine(front, m, c);
      assert |ys| as real == n as real + 1.0;
      LineSumsAdd(n as real, SumX(n), SumXX(n), n as real, m, c);
    }
  }

  lemma SlopeOfSums(n: real, sx: real, sxx: real, m: real, c: real)
    requires Determinant(n, sx, sxx) > 0.0
    ensures SlopeOf(n, sx, LineSumY(n, sx, m, c), sxx, LineSumXY(sx, sxx, m, c)) == m
  {
    var d := Determinant(n, sx, sxx);
    LineNumerator(n, sx, sxx, m, c);
    Quotient(m, d);
  }

  lemma LineNumerator(n: real, sx: real, sxx: real, m: real, c: real)
    ensures n * (m * sxx + c * sx) - sx * (m * sx + c * n) == m * (n * sxx - sx * sx)
  {
  }

  lemma Quotient(m: real, d: real)
    requires d > 0.0
    ensures m * d / d == m
  {
  }

  /** Samples on a line give back its slope exactly. */
  lemma SlopeOfLine(ys: seq<real>, m: real, c: real)
    requires |ys| >= 2 && forall k :: 0 <= k < |ys| ==> ys[k] == OnLine(m, c, k as real)
    ensures Slope(ys) == m
  {
    SumsOfLine(ys, m, c);
    ClosedForms(|ys|);
    DeterminantSign(|ys|);
    hide SlopeOf, Determinant, ClosedSumX, ClosedSumXX, SumX, SumXX, SumY, SumXY, LineSumY, LineSumXY, OnLine;
    SlopeOfSums(|ys| as real, SumX(|ys|), SumXX(|ys|), m, c);
  }

  // ------------------------------------------------------------------ the detector

  /** More than one kilobyte per iteration counts as a leak. */
  const LEAK_BYTES := 1024.0

  /**
   `detectMemoryLeak` after the samples have been taken. With fewer than two the program divides
   zero by zero, and the comparison with NaN reports no leak.
   */
  method DetectMemoryLeak(measurements: seq<real>) returns (leaked: bool, slope: Option<real>)
    ensures slope.None? <==> |measurements| < 2
    ensures slope.Some? ==> forall s :: IsLeastSquaresSlope(measurements, s) <==> s == slope.value
    ensures leaked <==> slope.Some? && slope.value > 1024.0
  {
    assert LEAK_BYTES == 1024.0;
    hide *;
    var n := |measurements| as real;
    DeterminantSign(|measurements|);
    if Determinant(n, ClosedSumX(n), ClosedSumXX(n)) == 0.0 {
      return false, None;
    }
    forall s
      ensures IsLeastSquaresSlope(measurements, s) <==> s == Slope(measurements)
    {
      SlopeIsLeastSquares(measurements, s);
    }
    var s := Slope(measurements);
    return s > LEAK_BYTES, Some(s);
  }
}
