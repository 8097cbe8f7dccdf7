/** The slope of the voltage curve: between two currents the stack voltage falls as the coded derivative says, which is the
    curve's derivative on both sides of the patch. The logarithm is any function with its product rule and its tangents. */
module FuelCellSlopes {
  import opened RealAlgebra
  import opened FuelCell

  predicate Multiplies(ln: real -> real, x: real, y: real) {
    ln(x * y) == ln(x) + ln(y)
  }

  predicate Tangent(ln: real -> real, x: real)
    requires x > 0.0
  {
    1.0 - 1.0 / x <= ln(x) <= x - 1.0
  }

  ghost predicate IsLog(ln: real -> real) {
    && (forall x, y | 0.0 < x && 0.0 < y :: Multiplies(ln, x, y))
    && (forall x | 0.0 < x :: Tangent(ln, x))
  }

  lemma InverseProduct(r: real, x: real, y: real)
    requires r > 0.0 && r * x == y
    ensures 1.0 / r * y == x
  {
    Quotient(1.0, r);
    assert 1.0 / r * y == 1.0 / r * r * x;
  }

  lemma LogOfProduct(ln: real -> real, x: real, y: real, z: real)
    requires Multiplies(ln, x, y) && z == x * y
    ensures ln(z) == ln(x) + ln(y)
  {
  }

  lemma LogTimes(g: real, r: real, r': real, x: real, y: real)
    requires 0.0 < x && 0.0 < y && r * x == y && r' * y == x && 1.0 - r' <= g <= r - 1.0
    ensures Product(g, x) <= y - x <= Product(g, y)
  {
    ScaleLe(x, g, r - 1.0);
    ScaleLe(y, 1.0 - r', g);
    assert (r - 1.0) * x == y - x && (1.0 - r') * y == y - x;
  }

  /** Between two arguments the logarithm grows by the difference over some number between them. */
  lemma LogBetween(ln: real -> real, x: real, y: real)
    requires IsLog(ln) && 0.0 < x < y
    ensures Product(ln(y) - ln(x), x) <= y - x <= Product(ln(y) - ln(x), y)
    ensures 0.0 <= ln(y) - ln(x)
  {
    var r := y / x;
    Quotient(y, x);
    PositiveRatio(y, x);
    assert Multiplies(ln, r, x) && Tangent(ln, r);
    assert r * x == y;
    LogOfProduct(ln, r, x, y);
    var g := ln(r);
    InverseProduct(r, x, y);
    LogTimes(g, r, 1.0 / r, x, y);
    NotNegative(g, y, y - x);
  }

  lemma NotNegative(g: real, y: real, d: real)
    requires y > 0.0 && d > 0.0 && d <= g * y
    ensures g > 0.0
  {
    if g <= 0.0 {
      ScaleLe(y, g, 0.0);
    }
  }

  lemma LogIsIncreasing(ln: real -> real)
    requires IsLog(ln)
    ensures Increasing(ln)
  {
    forall x, y | 0.0 < x <= y ensures ln(x) <= ln(y) {
      if x < y {
        LogBetween(ln, x, y);
      }
    }
  }

  lemma LogOfOne(ln: real -> real)
    requires IsLog(ln)
    ensures ln(1.0) == 0.0
  {
    assert Tangent(ln, 1.0);
  }

  // ----- one loss at a time

  lemma SlopeAbove(th: real, s: real, j: real, g: real, d: real)
    requires s * j == th && s >= 0.0 && g * j <= d
    ensures th * g <= s * d
  {
    var p := g * j;
    ScaleLe(s, p, d);
    assert s * p == s * j * g;
  }

  lemma SlopeBelow(th: real, s: real, j: real, g: real, d: real)
    requires s * j == th && s >= 0.0 && g * j >= d
    ensures th * g >= s * d
  {
    var p := g * j;
    ScaleLe(s, d, p);
    assert s * p == s * j * g;
  }

  /** From a bound in units of d to the bound itself. */
  lemma InUnits(g: real, x: real, y: real, d: real, u: real, v: real, w: real)
    requires d > 0.0 && x * d == u && y * d == v && w == v - u
    ensures g * x <= y - x ==> g * u <= w
    ensures g * y >= y - x ==> g * v >= w
  {
    var p, q := g * x, g * y;
    assert p * d == g * u && q * d == g * v && (y - x) * d == w;
    if p <= y - x {
      ScaleLe(d, p, y - x);
    }
    if q >= y - x {
      ScaleLe(d, y - x, q);
    }
  }

  lemma ActivationSlopeIs(s: Stack, j: real)
    requires s.Valid() && j >= J_MIN
    ensures ActivationSlope(s, j) * j == s.Thermal()
  {
    var c := ALPHA * ELECTRONS * FARADAY;
    var q := ActivationSlope(s, j);
    Quotient(R_GAS * s.temperature, c * j);
    Quotient(R_GAS * s.temperature, c);
    assert q * j * c == q * (c * j);
    SameFactor(q * j, s.Thermal(), c, R_GAS * s.temperature);
  }

  /** The same for numbers that are measured in units of d. */
  lemma LogStep(ln: real -> real, u: real, v: real, d: real) returns (g: real)
    requires IsLog(ln) && 0.0 < u < v && 0.0 < d
    ensures g == ln(v / d) - ln(u / d)
    ensures Product(g, u) <= v - u <= Product(g, v)
  {
    var x, y := u / d, v / d;
    Quotient(u, d);
    Quotient(v, d);
    PositiveRatio(u, d);
    Cancel(x, y, d);
    LogBetween(ln, x, y);
    g := ln(y) - ln(x);
    InUnits(g, x, y, d, u, v, v - u);
  }

  lemma ActivationStep(s: Stack, ln: real -> real, j1: real, j2: real)
    requires s.Valid() && IsLog(ln) && J_MIN <= j1 < j2
    ensures Product(ActivationSlope(s, j2), j2 - j1)
         <= Activation(s, ln, j2) - Activation(s, ln, j1)
         <= Product(ActivationSlope(s, j1), j2 - j1)
  {
    var g := LogStep(ln, j1, j2, s.j0);
    ActivationSlopeIs(s, j1);
    ActivationSlopeIs(s, j2);
    SlopeAbove(s.Thermal(), ActivationSlope(s, j1), j1, g, j2 - j1);
    SlopeBelow(s.Thermal(), ActivationSlope(s, j2), j2, g, j2 - j1);
    Distribute(s.Thermal(), ln(j2 / s.j0), ln(j1 / s.j0), g);
  }

  /** Below the patch. */
  predicate Below(s: Stack, j: real)
    requires s.Valid()
  {
    j / s.jLim <= PATCH
  }

  lemma ConcentrationStep(s: Stack, ln: real -> real, j1: real, j2: real)
    requires s.Valid() && IsLog(ln) && j1 < j2 && Below(s, j2)
    ensures Below(s, j1)
    ensures Product(ConcentrationSlope(s, j1), j2 - j1)
         <= Concentration(s, ln, j2) - Concentration(s, ln, j1)
         <= Product(ConcentrationSlope(s, j2), j2 - j1)
  {
    RatioGrows(j1, j2, s.jLim);
    BelowLimit(s, j1);
    BelowLimit(s, j2);
    var g := LogStep(ln, s.jLim - j2, s.jLim - j1, s.jLim);
    LogLoss(s, ln, j1);
    LogLoss(s, ln, j2);
    Quotient(B_CONC, s.jLim - j1);
    Quotient(B_CONC, s.jLim - j2);
    SlopeBelow(B_CONC, ConcentrationSlope(s, j1), s.jLim - j1, g, j2 - j1);
    SlopeAbove(B_CONC, ConcentrationSlope(s, j2), s.jLim - j2, g, j2 - j1);
  }

  lemma LogLoss(s: Stack, ln: real -> real, j: real)
    requires s.Valid() && Below(s, j)
    ensures Concentration(s, ln, j) == -B_CONC * ln((s.jLim - j) / s.jLim)
  {
    Quotient(j, s.jLim);
    Quotient(s.jLim - j, s.jLim);
    SameFactor(1.0 - j / s.jLim, (s.jLim - j) / s.jLim, s.jLim, s.jLim - j);
  }

  /** On the patch the loss is a line, and it starts at the value the logarithm reached. */
  lemma PatchStep(s: Stack, ln: real -> real, j1: real, j2: real)
    requires s.Valid() && j1 < j2 && !Below(s, j2) && (!Below(s, j1) || j1 == PATCH * s.jLim)
    ensures Concentration(s, ln, j2) - Concentration(s, ln, j1) == Product(ConcentrationSlope(s, j2), j2 - j1)
  {
    PatchLoss(s, ln, j1);
    PatchLoss(s, ln, j2);
    Distribute(ConcentrationSlope(s, j2), j2 - PATCH * s.jLim, j1 - PATCH * s.jLim, j2 - j1);
  }

  lemma PatchLoss(s: Stack, ln: real -> real, j: real)
    requires s.Valid() && (!Below(s, j) || j == PATCH * s.jLim)
    ensures Concentration(s, ln, j) == -B_CONC * ln(0.01) + Product(PenaltySlope(s) / s.jLim, j - PATCH * s.jLim)
  {
    var x, p := j / s.jLim, PenaltySlope(s);
    Quotient(j, s.jLim);
    Quotient(p, s.jLim);
    if j == PATCH * s.jLim {
      SameFactor(x, PATCH, s.jLim, j);
    }
    PerUnit(p / s.jLim, x, s.jLim, p, j);
  }

  lemma PerUnit(q: real, x: real, d: real, p: real, j: real)
    requires q * d == p && x * d == j
    ensures p * (x - PATCH) == Product(q, j - PATCH * d)
  {
    assert q * (j - PATCH * d) == q * (x * d) - PATCH * (q * d);
  }

  // ----- the whole curve

  predicate SameSide(s: Stack, j1: real, j2: real)
    requires s.Valid()
  {
    Below(s, j1) <==> Below(s, j2)
  }

  function Steepness(s: Stack, act: real, conc: real): real {
    Product(s.cells as real, act + s.Resistance() + conc)
  }

  lemma JacobianIsSteepness(s: Stack, j: real)
    requires s.Valid()
    ensures Jacobian(s, j) == -Steepness(s, ActivationSlope(s, j), ConcentrationSlope(s, j))
  {
    Negates(ActivationSlope(s, j) + s.Resistance() + ConcentrationSlope(s, j), s.cells as real);
  }

  lemma Associates(n: real, x: real, d: real, p: real)
    requires p == x * d
    ensures Product(Product(n, x), d) == n * p
  {
  }

  lemma Stacked(n: real, r: real, d: real, a1: real, a2: real, c1: real, c2: real, a: real, c: real, v: real)
    requires n >= 0.0 && v == a + Product(r, d) + c
    requires Product(a2, d) <= a <= Product(a1, d) && Product(c1, d) <= c <= Product(c2, d)
    ensures Product(Product(n, a2 + r + c1), d) <= Product(n, v) <= Product(Product(n, a1 + r + c2), d)
  {
    var lo, hi := (a2 + r + c1) * d, (a1 + r + c2) * d;
    assert lo == a2 * d + r * d + c1 * d && hi == a1 * d + r * d + c2 * d;
    ScaleLe(n, lo, v);
    ScaleLe(n, v, hi);
    Associates(n, a2 + r + c1, d, lo);
    Associates(n, a1 + r + c2, d, hi);
  }

  lemma ConcentrationBetween(s: Stack, ln: real -> real, j1: real, j2: real)
    requires s.Valid() && IsLog(ln) && j1 < j2 && SameSide(s, j1, j2)
    ensures Product(ConcentrationSlope(s, j1), j2 - j1)
         <= Concentration(s, ln, j2) - Concentration(s, ln, j1)
         <= Product(ConcentrationSlope(s, j2), j2 - j1)
  {
    if Below(s, j2) {
      ConcentrationStep(s, ln, j1, j2);
    } else {
      PatchStep(s, ln, j1, j2);
      assert ConcentrationSlope(s, j1) == ConcentrationSlope(s, j2);
    }
  }

  lemma CellVoltageFalls(s: Stack, ln: real -> real, j1: real, j2: real)
    requires s.Valid()
    ensures CellVoltage(s, ln, j1) - CellVoltage(s, ln, j2)
         == (Activation(s, ln, j2) - Activation(s, ln, j1)) + Product(s.Resistance(), j2 - j1)
            + (Concentration(s, ln, j2) - Concentration(s, ln, j1))
  {
    assert Ohmic(s, j2) - Ohmic(s, j1) == s.Resistance() * (j2 - j1);
  }

  lemma StackFalls(s: Stack, ln: real -> real, j1: real, j2: real)
    requires s.Valid()
    ensures Voltage(s, ln, j1) - Voltage(s, ln, j2)
         == Product(s.cells as real, CellVoltage(s, ln, j1) - CellVoltage(s, ln, j2))
  {
    Subtracts(s.cells as real, CellVoltage(s, ln, j1), CellVoltage(s, ln, j2));
  }

  lemma Subtracts(n: real, x: real, y: real)
    ensures Product(n, x - y) == Product(n, x) - Product(n, y)
  {
  }

  /** Between two currents on the same side of the patch, the voltage falls by their distance times a slope between the
      slopes there: each of the three losses at its least, and each at its most. */
  lemma VoltageFalls(s: Stack, ln: real -> real, j1: real, j2: real)
    requires s.Valid() && IsLog(ln) && J_MIN <= j1 < j2 && SameSide(s, j1, j2)
    ensures Product(Steepness(s, ActivationSlope(s, j2), ConcentrationSlope(s, j1)), j2 - j1)
         <= Voltage(s, ln, j1) - Voltage(s, ln, j2)
         <= Product(Steepness(s, ActivationSlope(s, j1), ConcentrationSlope(s, j2)), j2 - j1)
  {
    ActivationStep(s, ln, j1, j2);
    ConcentrationBetween(s, ln, j1, j2);
    CellVoltageFalls(s, ln, j1, j2);
    StackFalls(s, ln, j1, j2);
    Stacked(s.cells as real, s.Resistance(), j2 - j1, ActivationSlope(s, j1), ActivationSlope(s, j2),
            ConcentrationSlope(s, j1), ConcentrationSlope(s, j2),
            Activation(s, ln, j2) - Activation(s, ln, j1), Concentration(s, ln, j2) - Concentration(s, ln, j1),
            CellVoltage(s, ln, j1) - CellVoltage(s, ln, j2));
  }

  /** Where the curve is anchored: the activation loss vanishes at the exchange current and the concentration loss without
      a current. */
  lemma Anchors(s: Stack, ln: real -> real)
    requires s.Valid() && IsLog(ln)
    ensures s.j0 >= J_MIN ==> CellVoltage(s, ln, s.j0) == s.ocv - Ohmic(s, s.j0) - Concentration(s, ln, s.j0)
    ensures Concentration(s, ln, 0.0) == 0.0 && Ohmic(s, 0.0) == 0.0
  {
    LogOfOne(ln);
    Quotient(s.j0, s.j0);
    SameFactor(s.j0 / s.j0, 1.0, s.j0, s.j0);
    Quotient(0.0, s.jLim);
    SameFactor(0.0 / s.jLim, 0.0, s.jLim, 0.0);
  }

  // ----- the derivative

  /** Near j, the curve is within eps times the distance of its tangent. */
  predicate Linear(v: real -> real, j: real, slope: real, eps: real, k: real) {
    Distance(v(k) - v(j), Product(slope, k - j)) <= Product(eps, Distance(j, k))
  }

  ghost predicate LinearWithin(v: real -> real, j: real, slope: real, eps: real, delta: real) {
    forall k | Distance(j, k) < delta :: Linear(v, j, slope, eps, k)
  }

  ghost predicate LinearNear(v: real -> real, j: real, slope: real, eps: real) {
    exists delta | delta > 0.0 :: LinearWithin(v, j, slope, eps, delta)
  }

  ghost predicate IsDerivative(v: real -> real, j: real, slope: real) {
    forall eps | eps > 0.0 :: LinearNear(v, j, slope, eps)
  }

  /** How far c / x is from c / y. */
  lemma InversesClose(c: real, x: real, y: real, m: real)
    requires c > 0.0 && 0.0 < m <= x && m <= y
    ensures Distance(c / x, c / y) <= Product(c / m / m, Distance(x, y))
  {
    if x < y {
      InverseFalls(c, x, y, m);
    } else if y < x {
      InverseFalls(c, y, x, m);
    }
  }

  lemma InverseFalls(c: real, x: real, y: real, m: real)
    requires c > 0.0 && 0.0 < m <= x < y
    ensures 0.0 <= c / x - c / y <= Product(c / m / m, y - x)
  {
    Quotient(c, x);
    Quotient(c, y);
    Quotient(c, m);
    Quotient(c / m, m);
    QuotientsClose(c, x, y, m, c / x, c / y, c / m, c / m / m);
  }

  lemma QuotientsClose(c: real, x: real, y: real, m: real, u: real, v: real, w: real, b: real)
    requires c > 0.0 && 0.0 < m <= x < y && u * x == c && v * y == c && w * m == c && b * m == w
    ensures 0.0 <= u - v <= Product(b, y - x)
  {
    Larger(c, u, x, v, y);
    Larger(c, w, m, v, y);
    BoundTimes(c, x, y, u, v);
    SameProduct(b, y - x, m, w);
    Bounded(u - v, m, x, v, w, y - x, Product(b, y - x));
  }

  lemma SameProduct(b: real, d: real, m: real, w: real)
    requires b * m == w
    ensures Product(b, d) * m == w * d
  {
  }

  lemma Bounded(e: real, m: real, x: real, v: real, w: real, d: real, bound: real)
    requires 0.0 <= e && 0.0 < m <= x && 0.0 <= d && v <= w && e * x == v * d && bound * m == w * d
    ensures e <= bound
  {
    ScaleLe(e, m, x);
    ScaleLe(d, v, w);
    Cancel(e, bound, m);
  }

  lemma BoundTimes(c: real, x: real, y: real, u: real, v: real)
    requires u * x == c && v * y == c
    ensures (u - v) * x == v * (y - x)
  {
  }

  lemma Larger(c: real, u: real, x: real, v: real, y: real)
    requires c > 0.0 && 0.0 < x <= y && u * x == c && v * y == c
    ensures 0.0 < v <= u
  {
    if v <= 0.0 {
      ScaleLe(y, v, 0.0);
    }
    if u < v {
      ScaleLt(x, u, v);
      ScaleLe(v, x, y);
    }
  }

  lemma NearSlope(n: real, d: real, x: real, lo: real, hi: real, e: real, v: real)
    requires n >= 0.0 && d >= 0.0 && Distance(lo, x) <= e && Distance(hi, x) <= e
    requires Product(Product(n, lo), d) <= v <= Product(Product(n, hi), d)
    ensures Distance(v, Product(Product(n, x), d)) <= Product(Product(n, e), d)
  {
    ScaleTwice(n, d, x - e, lo);
    ScaleTwice(n, d, hi, x + e);
    Spread(n, d, x, e);
  }

  lemma ScaleTwice(n: real, d: real, x: real, y: real)
    requires n >= 0.0 && d >= 0.0 && x <= y
    ensures Product(Product(n, x), d) <= Product(Product(n, y), d)
  {
    ScaleLe(n, x, y);
    ScaleLe(d, n * x, n * y);
  }

  lemma Spread(n: real, d: real, x: real, e: real)
    ensures Product(Product(n, x - e), d) == Product(Product(n, x), d) - Product(Product(n, e), d)
    ensures Product(Product(n, x + e), d) == Product(Product(n, x), d) + Product(Product(n, e), d)
  {
  }

  /** How far the slopes of two currents are apart. */
  function SlopeGap(s: Stack, j: real, k: real): real
    requires s.Valid()
  {
    Distance(ActivationSlope(s, j), ActivationSlope(s, k)) + Distance(ConcentrationSlope(s, j), ConcentrationSlope(s, k))
  }

  lemma NearSteepness(s: Stack, j: real, k: real, lo: real, hi: real, v: real)
    requires s.Valid() && Product(lo, Distance(j, k)) <= v <= Product(hi, Distance(j, k))
    requires {lo, hi} == {Steepness(s, ActivationSlope(s, k), ConcentrationSlope(s, j)),
                          Steepness(s, ActivationSlope(s, j), ConcentrationSlope(s, k))}
    ensures Distance(v, Product(Steepness(s, ActivationSlope(s, j), ConcentrationSlope(s, j)), Distance(j, k)))
         <= Product(Product(s.cells as real, SlopeGap(s, j, k)), Distance(j, k))
  {
    var r := s.Resistance();
    var a, c := ActivationSlope(s, j), ConcentrationSlope(s, j);
    var a', c' := ActivationSlope(s, k), ConcentrationSlope(s, k);
    if lo == Steepness(s, a', c) && hi == Steepness(s, a, c') {
      NearSlope(s.cells as real, Distance(j, k), a + r + c, a' + r + c, a + r + c', SlopeGap(s, j, k), v);
    } else {
      NearSlope(s.cells as real, Distance(j, k), a + r + c, a + r + c', a' + r + c, SlopeGap(s, j, k), v);
    }
  }

  lemma Mirrored(v: real, w: real, p: real, q: real)
    requires v == -w && p == -q
    ensures Distance(v, p) == Distance(w, q)
  {
  }

  lemma JacobianTimes(s: Stack, j: real, d: real)
    requires s.Valid()
    ensures Product(Jacobian(s, j), d) == -Product(Steepness(s, ActivationSlope(s, j), ConcentrationSlope(s, j)), d)
    ensures Product(Jacobian(s, j), -d) == Product(Steepness(s, ActivationSlope(s, j), ConcentrationSlope(s, j)), d)
  {
    JacobianIsSteepness(s, j);
    Negates(Steepness(s, ActivationSlope(s, j), ConcentrationSlope(s, j)), d);
    Negates(Jacobian(s, j), d);
  }

  /** The tangent at j misses the curve at k by no more than the gap of their slopes allows. */
  lemma TangentMisses(s: Stack, ln: real -> real, j: real, k: real)
    requires s.Valid() && IsLog(ln) && J_MIN <= j && J_MIN <= k && SameSide(s, j, k) && j != k
    ensures Distance(Voltage(s, ln, k) - Voltage(s, ln, j), Product(Jacobian(s, j), k - j))
         <= Product(Product(s.cells as real, SlopeGap(s, j, k)), Distance(j, k))
  {
    var above := Steepness(s, ActivationSlope(s, j), ConcentrationSlope(s, k));
    var below := Steepness(s, ActivationSlope(s, k), ConcentrationSlope(s, j));
    var v, w := Voltage(s, ln, j), Voltage(s, ln, k);
    JacobianTimes(s, j, Distance(j, k));
    if j < k {
      VoltageFalls(s, ln, j, k);
      NearSteepness(s, j, k, below, above, v - w);
      Mirrored(w - v, v - w, Product(Jacobian(s, j), k - j),
               Product(Steepness(s, ActivationSlope(s, j), ConcentrationSlope(s, j)), Distance(j, k)));
    } else {
      VoltageFalls(s, ln, k, j);
      NearSteepness(s, j, k, above, below, w - v);
    }
  }

  lemma Negates(x: real, d: real)
    ensures Product(-x, d) == -Product(x, d) == Product(x, -d)
  {
  }

  lemma BelowIff(s: Stack, j: real)
    requires s.Valid()
    ensures Below(s, j) <==> j <= PATCH * s.jLim
  {
    Quotient(j, s.jLim);
    Cancel(j / s.jLim, PATCH, s.jLim);
    Cancel(PATCH, j / s.jLim, s.jLim);
  }

  lemma ActivationSlopesClose(s: Stack, j: real, k: real, m: real)
    requires s.Valid() && J_MIN <= j && J_MIN <= k && 0.0 < m <= j && m <= k
    ensures Distance(ActivationSlope(s, j), ActivationSlope(s, k)) <= Product(s.Thermal() / m / m, Distance(j, k))
  {
    ActivationSlopeIs(s, j);
    ActivationSlopeIs(s, k);
    Quotient(s.Thermal(), j);
    Quotient(s.Thermal(), k);
    SameFactor(ActivationSlope(s, j), s.Thermal() / j, j, s.Thermal());
    SameFactor(ActivationSlope(s, k), s.Thermal() / k, k, s.Thermal());
    PositiveRatio(R_GAS * s.temperature, ALPHA * ELECTRONS * FARADAY);
    InversesClose(s.Thermal(), j, k, m);
  }

  lemma ConcentrationSlopesClose(s: Stack, j: real, k: real, m: real)
    requires s.Valid() && SameSide(s, j, k) && m == 0.01 * s.jLim
    ensures Distance(ConcentrationSlope(s, j), ConcentrationSlope(s, k)) <= Product(B_CONC / m / m, Distance(j, k))
  {
    BelowIff(s, j);
    BelowIff(s, k);
    if Below(s, j) {
      InversesClose(B_CONC, s.jLim - j, s.jLim - k, m);
      assert Distance(s.jLim - j, s.jLim - k) == Distance(j, k);
    } else {
      PositiveRatio(B_CONC, m);
      PositiveRatio(B_CONC / m, m);
      ScaleLe(B_CONC / m / m, 0.0, Distance(j, k));
    }
  }

  /** Close enough to j to be on the same side of the patch, and not near a current of zero. */
  predicate Near(s: Stack, j: real, k: real) {
    Distance(j, k) < j - J_MIN && Distance(j, k) < 0.5 * j && Distance(j, k) < Distance(j, PATCH * s.jLim)
  }

  lemma NearIsSameSide(s: Stack, j: real, k: real)
    requires s.Valid() && Near(s, j, k)
    ensures SameSide(s, j, k) && J_MIN <= k && 0.5 * j <= k
  {
    BelowIff(s, j);
    BelowIff(s, k);
  }

  predicate GapWithin(s: Stack, j: real, bend: real, k: real)
    requires s.Valid()
  {
    SlopeGap(s, j, k) <= Product(bend, Distance(j, k))
  }

  /** Near j the slope changes no faster than in proportion to the distance. */
  lemma SlopeBends(s: Stack, j: real) returns (bend: real)
    requires s.Valid() && j > J_MIN
    ensures bend > 0.0 && forall k | Near(s, j, k) :: GapWithin(s, j, bend, k)
  {
    var m, m' := 0.5 * j, 0.01 * s.jLim;
    PositiveRatio(R_GAS * s.temperature, ALPHA * ELECTRONS * FARADAY);
    PositiveRatio(s.Thermal(), m);
    PositiveRatio(s.Thermal() / m, m);
    PositiveRatio(B_CONC, m');
    PositiveRatio(B_CONC / m', m');
    bend := s.Thermal() / m / m + B_CONC / m' / m';
    forall k | Near(s, j, k) ensures GapWithin(s, j, bend, k) {
      NearIsSameSide(s, j, k);
      ActivationSlopesClose(s, j, k, m);
      ConcentrationSlopesClose(s, j, k, m');
      Adds(s.Thermal() / m / m, B_CONC / m' / m', Distance(j, k));
    }
  }

  lemma Adds(x: real, y: real, d: real)
    ensures Product(x + y, d) == Product(x, d) + Product(y, d)
  {
  }

  lemma NearEnough(n: real, gap: real, bend: real, d: real, eps: real)
    requires n > 0.0 && bend > 0.0 && d >= 0.0 && gap <= Product(bend, d) && d < eps / n / bend
    ensures Product(Product(n, gap), d) <= Product(eps, d)
  {
    Quotient(eps, n);
    Quotient(eps / n, bend);
    ScaleLe(bend, d, eps / n / bend);
    ScaleLe(n, gap, eps / n);
    ScaleLe(d, n * gap, eps);
  }

  lemma TangentGap(s: Stack, ln: real -> real, j: real, bend: real, k: real) returns (gap: real)
    requires s.Valid() && IsLog(ln) && j > J_MIN && Near(s, j, k) && GapWithin(s, j, bend, k) && j != k
    ensures gap <= Product(bend, Distance(j, k))
    ensures Distance(Voltage(s, ln, k) - Voltage(s, ln, j), Product(Jacobian(s, j), k - j))
         <= Product(Product(s.cells as real, gap), Distance(j, k))
  {
    NearIsSameSide(s, j, k);
    TangentMisses(s, ln, j, k);
    gap := SlopeGap(s, j, k);
  }

  lemma LinearAt(s: Stack, ln: real -> real, j: real, bend: real, eps: real, k: real)
    requires s.Valid() && IsLog(ln) && j > J_MIN && Near(s, j, k) && GapWithin(s, j, bend, k)
    requires bend > 0.0 && Distance(j, k) < eps / s.cells as real / bend
    ensures Linear(x => Voltage(s, ln, x), j, Jacobian(s, j), eps, k)
  {
    if j != k {
      var gap := TangentGap(s, ln, j, bend, k);
      NearEnough(s.cells as real, gap, bend, Distance(j, k), eps);
    }
  }

  /** The coded Jacobian is the derivative of the coded voltage, at every current above the least one but the patch's. */
  lemma JacobianIsDerivative(s: Stack, ln: real -> real, j: real)
    requires s.Valid() && IsLog(ln) && j > J_MIN && j != PATCH * s.jLim
    ensures IsDerivative(x => Voltage(s, ln, x), j, Jacobian(s, j))
  {
    var v := x => Voltage(s, ln, x);
    var bend := SlopeBends(s, j);
    forall eps | eps > 0.0 ensures LinearNear(v, j, Jacobian(s, j), eps) {
      PositiveRatio(eps, s.cells as real);
      PositiveRatio(eps / s.cells as real, bend);
      var delta := Least(Least(j - J_MIN, 0.5 * j), Least(Distance(j, PATCH * s.jLim), eps / s.cells as real / bend));
      forall k | Distance(j, k) < delta ensures Linear(v, j, Jacobian(s, j), eps, k) {
        assert Near(s, j, k);
        LinearAt(s, ln, j, bend, eps, k);
      }
      assert LinearWithin(v, j, Jacobian(s, j), eps, delta);
    }
  }

  // ----- the solver's step

  /** A step that the clamp leaves alone goes to where the tangent meets the target. */
  lemma StepIsNewton(s: Stack, ln: real -> real, target: real, j: real)
    requires s.Valid()
    ensures 0.0000000001 < NewtonStep(s, ln, target, j) < 0.999 * s.jLim
        ==> Voltage(s, ln, j) + Product(Jacobian(s, j), NewtonStep(s, ln, target, j) - j) == target
    ensures 0.0000000001 <= 0.999 * s.jLim ==> 0.0000000001 <= NewtonStep(s, ln, target, j) <= 0.999 * s.jLim
  {
    var res, slope := Residual(s, ln, target, j), Jacobian(s, j);
    Quotient(res, slope);
    Negates(slope, res / slope);
  }

  /** The slopes in numbers: the activation loss falls off with the current, and the concentration loss with the room that
      is left below the limiting current. */
  lemma SlopesInNumbers(s: Stack, j: real)
    requires s.Valid() && j >= 0.0000000001
    ensures ActivationSlope(s, j) * j * (0.5 * 4.0 * 96485.33212) == 8.314462618 * s.temperature
    ensures j <= 0.99 * s.jLim ==> ConcentrationSlope(s, j) * (s.jLim - j) == 0.05
    ensures j > 0.99 * s.jLim ==> ConcentrationSlope(s, j) * (s.jLim * (0.01 * s.jLim)) == 0.05
  {
    ActivationSlopeIs(s, j);
    Quotient(R_GAS * s.temperature, ALPHA * ELECTRONS * FARADAY);
    BelowIff(s, j);
    if Below(s, j) {
      BelowLimit(s, j);
      Quotient(B_CONC, s.jLim - j);
    } else {
      Quotient(B_CONC, s.jLim * 0.01);
      Quotient(PenaltySlope(s), s.jLim);
    }
  }

  /** The solver starts where no current of the range is further away than half of it; no other start is that central. */
  lemma StartIsCentralIff(s: Stack, ln: real -> real, target: real, start: real)
    requires s.Valid()
    ensures (forall j | 0.0 <= j <= s.jLim :: Distance(start, j) <= 0.5 * s.jLim) <==> start == Iterate(s, ln, target, 0)
  {
    if forall j | 0.0 <= j <= s.jLim :: Distance(start, j) <= 0.5 * s.jLim {
      assert Distance(start, 0.0) <= 0.5 * s.jLim && Distance(start, s.jLim) <= 0.5 * s.jLim;
    }
  }
}
