/** The fuel-cell voltage curve and its Newton solver (`calculate_pemfc_voltage`, `newton_raphson_solver`).
    The logarithm is a parameter: only its monotonicity is used. */
module FuelCell {
  import opened RealAlgebra

  const R_GAS: real := 8.314462618
  const FARADAY: real := 96485.33212
  const ALPHA: real := 0.5
  const ELECTRONS: real := 4.0
  const B_CONC: real := 0.05
  const TOLERANCE: real := 0.0001
  const MAX_ITER: nat := 50
  const PATCH: real := 0.99   // share of the limiting current from which the logarithm is bypassed
  const J_MIN: real := 0.0000000001
  const J_MAX_SHARE: real := 0.999
  const SLOPE_MIN: real := 0.00000000000000000001

  /** One operating point. Open-circuit voltage, exchange current and membrane resistance do not depend on j. */
  datatype Stack = Stack(temperature: real, ocv: real, j0: real, rInternal: real, rMem: real, cells: nat, jLim: real)
  {
    predicate Valid() {
      temperature > 0.0 && j0 > 0.0 && rInternal + rMem > 0.0 && cells > 0 && jLim > 0.0
    }

    function Resistance(): real {
      rInternal + rMem
    }

    function Thermal(): real {
      R_GAS * temperature / (ALPHA * ELECTRONS * FARADAY)
    }
  }

  ghost predicate Increasing(ln: real -> real) {
    forall x, y | 0.0 < x <= y :: ln(x) <= ln(y)
  }

  // ----- the voltage curve

  function Activation(s: Stack, ln: real -> real, j: real): real
    requires s.Valid()
  {
    s.Thermal() * ln(Largest(j, J_MIN) / s.j0)
  }

  function Ohmic(s: Stack, j: real): real {
    j * s.Resistance()
  }

  function PenaltySlope(s: Stack): real
    requires s.Valid()
  {
    B_CONC / (s.jLim * 0.01)
  }

  function Concentration(s: Stack, ln: real -> real, j: real): real
    requires s.Valid()
  {
    var ratio := j / s.jLim;
    if ratio <= PATCH then -B_CONC * ln(1.0 - ratio)
    else -B_CONC * ln(0.01) + PenaltySlope(s) * (ratio - PATCH)
  }

  function CellVoltage(s: Stack, ln: real -> real, j: real): real
    requires s.Valid()
  {
    s.ocv - Activation(s, ln, j) - Ohmic(s, j) - Concentration(s, ln, j)
  }

  function Voltage(s: Stack, ln: real -> real, j: real): real
    requires s.Valid()
  {
    Product(s.cells as real, CellVoltage(s, ln, j))
  }

  lemma RatioGrows(a: real, b: real, d: real)
    requires d > 0.0 && a <= b
    ensures a / d <= b / d
  {
    Quotient(a, d);
    Quotient(b, d);
    Cancel(a / d, b / d, d);
  }

  lemma PositiveRatio(a: real, d: real)
    requires d > 0.0 && a > 0.0
    ensures a / d > 0.0
  {
    Quotient(a, d);
    Cancel(0.0, a / d, d);
  }

  lemma ActivationGrows(s: Stack, ln: real -> real, j1: real, j2: real)
    requires s.Valid() && Increasing(ln) && j1 <= j2
    ensures Activation(s, ln, j1) <= Activation(s, ln, j2)
  {
    var a, b := Largest(j1, J_MIN), Largest(j2, J_MIN);
    PositiveRatio(a, s.j0);
    RatioGrows(a, b, s.j0);
    PositiveRatio(R_GAS * s.temperature, ALPHA * ELECTRONS * FARADAY);
    ScaleLe(s.Thermal(), ln(a / s.j0), ln(b / s.j0));
  }

  /** Across the patch too: the patch starts where the logarithm stops and goes up from there. */
  lemma ConcentrationGrows(s: Stack, ln: real -> real, j1: real, j2: real)
    requires s.Valid() && Increasing(ln) && j1 <= j2
    ensures Concentration(s, ln, j1) <= Concentration(s, ln, j2)
  {
    RatioGrows(j1, j2, s.jLim);
    var a, b := j1 / s.jLim, j2 / s.jLim;
    var p := PenaltySlope(s);
    PositiveRatio(B_CONC, s.jLim * 0.01);
    if b <= PATCH {
      assert ln(1.0 - b) <= ln(1.0 - a);
    } else if a <= PATCH {
      assert ln(0.01) <= ln(1.0 - a);
      ScaleLe(p, 0.0, b - PATCH);
    } else {
      ScaleLe(p, a - PATCH, b - PATCH);
    }
  }

  /** What the ohmic loss alone takes from the stack voltage, per unit of current. */
  function Stiffness(s: Stack): (k: real)
    requires s.Valid()
    ensures k > 0.0
  {
    ScaleLt(s.cells as real, 0.0, s.Resistance());
    s.cells as real * s.Resistance()
  }

  lemma CellVoltageDrop(s: Stack, ln: real -> real, j1: real, j2: real)
    requires s.Valid() && Increasing(ln) && j1 <= j2
    ensures CellVoltage(s, ln, j1) - CellVoltage(s, ln, j2) >= Product(s.Resistance(), j2 - j1)
  {
    ActivationGrows(s, ln, j1, j2);
    ConcentrationGrows(s, ln, j1, j2);
    assert Ohmic(s, j2) - Ohmic(s, j1) == s.Resistance() * (j2 - j1);
  }

  /** The voltage falls at least as fast as the ohmic loss alone. */
  lemma VoltageDrop(s: Stack, ln: real -> real, j1: real, j2: real)
    requires s.Valid() && Increasing(ln) && j1 <= j2
    ensures Voltage(s, ln, j1) - Voltage(s, ln, j2) >= Product(Stiffness(s), j2 - j1)
  {
    CellVoltageDrop(s, ln, j1, j2);
    StackDrop(s, CellVoltage(s, ln, j1), CellVoltage(s, ln, j2), j2 - j1);
  }

  lemma StackDrop(s: Stack, v1: real, v2: real, d: real)
    requires s.Valid() && v1 - v2 >= Product(s.Resistance(), d)
    ensures Product(s.cells as real, v1) - Product(s.cells as real, v2) >= Product(Stiffness(s), d)
  {
    ScaledDrop(s.cells as real, s.Resistance(), Stiffness(s), d, v1, v2);
  }

  lemma ScaledDrop(n: real, r: real, k: real, d: real, v1: real, v2: real)
    requires 0.0 <= n && v1 - v2 >= r * d && k == n * r
    ensures n * v1 - n * v2 >= k * d
  {
    var p := r * d;
    ScaleLe(n, p, v1 - v2);
    assert n * p == n * r * d;
    assert n * (v1 - v2) == n * v1 - n * v2;
  }

  lemma MoreCurrentLessVoltage(s: Stack, ln: real -> real, j1: real, j2: real)
    requires s.Valid() && Increasing(ln) && j1 < j2
    ensures Product(Stiffness(s), Distance(j1, j2)) <= Distance(Voltage(s, ln, j1), Voltage(s, ln, j2))
    ensures Voltage(s, ln, j1) > Voltage(s, ln, j2)
  {
    VoltageDrop(s, ln, j1, j2);
    FallsApart(Stiffness(s), j1, j2, Voltage(s, ln, j1), Voltage(s, ln, j2));
  }

  lemma FallsApart(k: real, j1: real, j2: real, v1: real, v2: real)
    requires k > 0.0 && j1 < j2 && v1 - v2 >= Product(k, j2 - j1)
    ensures Product(k, Distance(j1, j2)) <= Distance(v1, v2) && v1 > v2
  {
    ScaleLt(k, 0.0, j2 - j1);
  }

  /** Two currents are no further apart than their voltages allow; in particular a voltage has at most one current. */
  lemma CurrentsWithin(s: Stack, ln: real -> real, j1: real, j2: real)
    requires s.Valid() && Increasing(ln)
    ensures Product(Stiffness(s), Distance(j1, j2)) <= Distance(Voltage(s, ln, j1), Voltage(s, ln, j2))
    ensures Voltage(s, ln, j1) == Voltage(s, ln, j2) ==> j1 == j2
    ensures Voltage(s, ln, j1) > Voltage(s, ln, j2) <==> j1 < j2
  {
    if j1 < j2 {
      MoreCurrentLessVoltage(s, ln, j1, j2);
    } else if j2 < j1 {
      MoreCurrentLessVoltage(s, ln, j2, j1);
      assert Distance(j1, j2) == Distance(j2, j1);
    }
  }

  // ----- the solver

  /** Below the patch there is room to the limiting current. */
  lemma BelowLimit(s: Stack, j: real)
    requires s.Valid() && j / s.jLim <= PATCH
    ensures j < s.jLim
  {
    Quotient(j, s.jLim);
    ScaleLe(s.jLim, j / s.jLim, PATCH);
  }

  function ActivationSlope(s: Stack, j: real): (r: real)
    requires s.Valid()
    ensures r > 0.0
  {
    PositiveRatio(R_GAS * s.temperature, ALPHA * ELECTRONS * FARADAY * Largest(j, J_MIN));
    R_GAS * s.temperature / (ALPHA * ELECTRONS * FARADAY * Largest(j, J_MIN))
  }

  function ConcentrationSlope(s: Stack, j: real): (r: real)
    requires s.Valid()
    ensures r > 0.0
  {
    if j / s.jLim <= PATCH then
      BelowLimit(s, j);
      PositiveRatio(B_CONC, s.jLim - j);
      B_CONC / (s.jLim - j)
    else
      PositiveRatio(B_CONC, s.jLim * 0.01);
      PositiveRatio(PenaltySlope(s), s.jLim);
      PenaltySlope(s) / s.jLim
  }

  /** The derivative as the solver writes it. It never vanishes: the division guard can only trip on a stack whose
      resistance is next to nothing. */
  function Jacobian(s: Stack, j: real): (r: real)
    requires s.Valid()
    ensures r <= -Stiffness(s) < 0.0
  {
    ScaleLe(s.cells as real, -ActivationSlope(s, j) - s.Resistance() - ConcentrationSlope(s, j), -s.Resistance());
    s.cells as real * (-ActivationSlope(s, j) - s.Resistance() - ConcentrationSlope(s, j))
  }

  /** The two slopes meet at the patch for one limiting current only: the curve is not smooth there in general. */
  lemma PatchIsSmoothIff(s: Stack)
    requires s.Valid()
    ensures B_CONC / (s.jLim - PATCH * s.jLim) == PenaltySlope(s) / s.jLim <==> s.jLim == 1.0
  {
    var d := s.jLim * 0.01;
    assert s.jLim - PATCH * s.jLim == d;
    var p := B_CONC / d;
    PositiveRatio(B_CONC, d);
    Quotient(p, s.jLim);
    if p / s.jLim == p {
      assert p * s.jLim == p;
      Cancel(s.jLim, 1.0, p);
    }
  }

  function Clamp(s: Stack, j: real): real {
    Largest(J_MIN, Least(j, J_MAX_SHARE * s.jLim))
  }

  function Residual(s: Stack, ln: real -> real, target: real, j: real): real
    requires s.Valid()
  {
    Voltage(s, ln, j) - target
  }

  function NewtonStep(s: Stack, ln: real -> real, target: real, j: real): real
    requires s.Valid()
  {
    Clamp(s, j - Residual(s, ln, target, j) / Jacobian(s, j))
  }

  lemma QuotientSign(r: real, d: real)
    requires d < 0.0
    ensures r > 0.0 <==> r / d < 0.0
    ensures r < 0.0 <==> r / d > 0.0
  {
    Quotient(r, d);
    var q := r / d;
    if q > 0.0 {
      ScaleLt(q, d, 0.0);
    } else if q < 0.0 {
      ScaleLt(-q, d, 0.0);
    }
  }

  /** A step always moves from j towards the solution, as long as the solution is inside the clamp. */
  lemma StepMovesTowardsSolution(s: Stack, ln: real -> real, target: real, j: real, root: real)
    requires s.Valid() && Increasing(ln) && Clamp(s, root) == root && Voltage(s, ln, root) == target
    ensures j < root ==> j < NewtonStep(s, ln, target, j)
    ensures root < j ==> NewtonStep(s, ln, target, j) < j
    ensures j == root ==> NewtonStep(s, ln, target, j) == j
  {
    CurrentsWithin(s, ln, j, root);
    CurrentsWithin(s, ln, root, j);
    QuotientSign(Residual(s, ln, target, j), Jacobian(s, j));
  }

  lemma StepIsClamped(s: Stack, ln: real -> real, target: real, j: real, residual: real, slope: real, jNew: real)
    requires s.Valid() && residual == Residual(s, ln, target, j) && slope == Jacobian(s, j) && jNew == j - residual / slope
    ensures NewtonStep(s, ln, target, j) == Largest(J_MIN, Least(jNew, J_MAX_SHARE * s.jLim))
  {
  }

  /** The k-th iterate of the loop. */
  function Iterate(s: Stack, ln: real -> real, target: real, k: nat): (j: real)
    requires s.Valid()
    ensures j > 0.0
  {
    if k == 0 then 0.5 * s.jLim else NewtonStep(s, ln, target, Iterate(s, ln, target, k - 1))
  }

  predicate Converged(s: Stack, ln: real -> real, target: real, j: real)
    requires s.Valid()
  {
    Distance(Voltage(s, ln, j), target) < TOLERANCE
  }

  /** None of the first k iterates meets the tolerance. */
  predicate NoneBefore(s: Stack, ln: real -> real, target: real, k: nat)
    requires s.Valid()
  {
    forall i: nat | i < k :: !Converged(s, ln, target, Iterate(s, ln, target, i))
  }

  /** One pass of the loop: it ends with success, with a flat slope, or moves on. */
  method Iteration(s: Stack, ln: real -> real, target: real, j: real) returns (next: real, done: bool, ok: bool)
    requires s.Valid() && j > 0.0
    ensures ok <==> Converged(s, ln, target, j)
    ensures done <==> ok || Distance(Jacobian(s, j), 0.0) < SLOPE_MIN
    ensures next == if done then j else NewtonStep(s, ln, target, j)
  {
    var residual := Voltage(s, ln, j) - target;
    if Distance(residual, 0.0) < TOLERANCE {
      return j, true, true;
    }
    var slope := Jacobian(s, j);
    if Distance(slope, 0.0) < SLOPE_MIN {
      return j, true, false;
    }
    var jNew := j - residual / slope;
    StepIsClamped(s, ln, target, j, residual, slope, jNew);
    next := Largest(J_MIN, Least(jNew, J_MAX_SHARE * s.jLim));
    done, ok := false, false;
  }

  /** The solver returns the first iterate that meets the tolerance, or gives up after 50 of them. */
  method NewtonRaphsonSolver(s: Stack, ln: real -> real, target: real) returns (j: real, ok: bool)
    requires s.Valid()
    ensures j > 0.0 && (ok ==> Converged(s, ln, target, j))
    ensures ok ==> exists k: nat | k < 50 :: j == Iterate(s, ln, target, k) && NoneBefore(s, ln, target, k)
    ensures Stiffness(s) >= SLOPE_MIN && !ok ==> j == Iterate(s, ln, target, 50) && NoneBefore(s, ln, target, 50)
  {
    j := 0.5 * s.jLim;
    for k := 0 to MAX_ITER
      invariant j == Iterate(s, ln, target, k)
      invariant NoneBefore(s, ln, target, k)
    {
      var next, done, converged := Iteration(s, ln, target, j);
      if done {
        return j, converged;
      }
      j := next;
    }
    ok := false;
  }

  /** A curve that falls by at least k per unit. */
  ghost predicate FallsBy(v: real -> real, k: real) {
    forall a, b | a <= b :: DropsBy(v, k, a, b)
  }

  predicate DropsBy(v: real -> real, k: real, a: real, b: real) {
    Product(k, b - a) <= v(a) - v(b)
  }

  lemma CloseOnCurve(v: real -> real, k: real, j: real, root: real, bound: real)
    requires k > 0.0 && FallsBy(v, k) && Distance(v(j), v(root)) < bound
    ensures Distance(j, root) < bound / k
  {
    assert DropsBy(v, k, Least(j, root), Largest(j, root));
    Quotient(bound, k);
    ScaleLe(k, 0.0, Distance(j, root));
    CancelLt(Distance(j, root), bound / k, k, Distance(j, root) * k, bound);
  }

  /** A converged current is close to every exact solution, however flat the curve looks there. */
  lemma ConvergedIsClose(s: Stack, ln: real -> real, target: real, j: real, root: real)
    requires s.Valid() && Increasing(ln) && Converged(s, ln, target, j) && Voltage(s, ln, root) == target
    ensures Distance(j, root) < 0.0001 / Stiffness(s)
  {
    var v := x => Voltage(s, ln, x);
    forall a, b | a <= b
      ensures DropsBy(v, Stiffness(s), a, b)
    {
      VoltageDrop(s, ln, a, b);
    }
    CloseOnCurve(v, Stiffness(s), j, root, TOLERANCE);
  }
}
