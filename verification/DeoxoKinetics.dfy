/** What the coded reactor does with gas: how much oxygen a step leaves, how fast it is converted, and how the jacket
    cools. Without heat the equations are linear, and the Runge-Kutta step has a closed form. */
module DeoxoKinetics {
  import opened Wrappers
  import opened RealAlgebra
  import opened DeoxoReactor

  // ----- one step along a linear gradient

  /** What a step of relative size h leaves of a decaying amount: the exponential of -h up to the fourth power. */
  function Decay(h: real): real {
    1.0 - h + h * h / 2.0 - h * h * h / 6.0 + h * h * h * h / 24.0
  }

  /** The shares that are left at the stages of a step. */
  function Stage(h: real, i: nat): real {
    if i == 0 then 1.0
    else if i < 3 then 1.0 - 0.5 * h * Stage(h, i - 1)
    else 1.0 - h * Stage(h, i - 1)
  }

  lemma StageWithin(h: real, i: nat)
    requires 0.0 <= h <= 1.0
    ensures 0.0 <= Stage(h, i) <= 1.0
  {
    if i > 0 {
      StageWithin(h, i - 1);
      Fraction(h, Stage(h, i - 1));
      assert 0.5 * h * Stage(h, i - 1) == 0.5 * (h * Stage(h, i - 1));
    }
  }

  lemma StagesAddUp(h: real)
    ensures Decay(h) == 1.0 - h / 6.0 * (Stage(h, 0) + 2.0 * Stage(h, 1) + 2.0 * Stage(h, 2) + Stage(h, 3))
  {
    assert Stage(h, 1) == 1.0 - 0.5 * h;
    assert Stage(h, 2) == 1.0 - 0.5 * h + 0.25 * h * h;
    assert Stage(h, 3) == 1.0 - h + 0.5 * h * h - 0.25 * h * h * h;
  }

  lemma DecayWithin(h: real)
    requires 0.0 <= h <= 1.0
    ensures 0.0 <= Decay(h) <= 1.0
    ensures h > 0.0 ==> Decay(h) < 1.0
  {
    StagesAddUp(h);
    StageWithin(h, 1);
    StageWithin(h, 2);
    StageWithin(h, 3);
    Fraction((Stage(h, 0) + 2.0 * Stage(h, 1) + 2.0 * Stage(h, 2) + Stage(h, 3)) / 6.0, h);
  }

  /** One stage of an amount w that decays at rate kappa: c of it was left where the slope was taken. */
  lemma StageLeaves(w: real, step: real, kappa: real, c: real, h: real)
    requires step * kappa == h
    ensures Product(w, 1.0 - h * c) == w - step * Product(kappa, Product(w, c))
  {
    assert step * (kappa * (w * c)) == step * kappa * w * c;
  }

  lemma WeightedLeaves(w: real, dl: real, kappa: real, h: real, c1: real, c2: real, c3: real, c4: real,
                       share: real)
    requires h == Product(dl, kappa) && share == 1.0 - h / 6.0 * (c1 + 2.0 * c2 + 2.0 * c3 + c4)
    ensures Product(w, share)
         == w - Weighted(dl, Product(kappa, Product(w, c1)), Product(kappa, Product(w, c2)),
                         Product(kappa, Product(w, c3)), Product(kappa, Product(w, c4)))
  {
    var sum := c1 + 2.0 * c2 + 2.0 * c3 + c4;
    SumOfProducts(kappa, w, c1, c2, c3, c4);
    assert dl / 6.0 * (kappa * (w * sum)) == h / 6.0 * sum * w;
  }

  lemma SumOfProducts(kappa: real, w: real, c1: real, c2: real, c3: real, c4: real)
    ensures Product(kappa, Product(w, c1)) + 2.0 * Product(kappa, Product(w, c2)) + 2.0 * Product(kappa, Product(w, c3))
            + Product(kappa, Product(w, c4))
         == kappa * (w * (c1 + 2.0 * c2 + 2.0 * c3 + c4))
  {
  }

  predicate Between(v: real, a: real, b: real) {
    a <= v <= b || b <= v <= a
  }

  function StageSlope(kappa: real, w: real, h: real, i: nat): real {
    Product(kappa, Product(w, Stage(h, i)))
  }

  /** A value y on its way to a: what is left of the way at the next stage, from the slope at the stage i. */
  lemma NextStage(a: real, y: real, kappa: real, step: real, h: real, i: nat)
    requires 0.0 <= h <= 1.0 && step * kappa == (if i < 2 then 0.5 * h else h)
    ensures var next := Ahead(y, step, StageSlope(kappa, a - y, h, i));
      a - next == Product(a - y, Stage(h, i + 1)) && Between(next, y, a)
  {
    StageLeaves(a - y, step, kappa, Stage(h, i), step * kappa);
    StageWithin(h, i + 1);
    PartOfWay(a - y, Stage(h, i + 1));
    assert a - Ahead(y, step, StageSlope(kappa, a - y, h, i)) == Product(a - y, Stage(h, i + 1));
  }

  lemma PartOfWay(w: real, c: real)
    requires 0.0 <= c <= 1.0
    ensures Between(Product(w, c), 0.0, w)
  {
    if w >= 0.0 {
      PartUp(w, c);
    } else {
      PartUp(-w, c);
      Negates(w, c);
    }
  }

  lemma PartUp(w: real, c: real)
    requires 0.0 <= c <= 1.0 && 0.0 <= w
    ensures 0.0 <= Product(w, c) <= w
  {
    Fraction(c, w);
    Commutes(w, c);
  }

  lemma Commutes(w: real, c: real)
    ensures Product(w, c) == c * w
  {
  }

  lemma Negates(w: real, c: real)
    ensures Product(-w, c) == -Product(w, c)
  {
  }

  lemma StepLeaves(w: real, dl: real, kappa: real)
    ensures var h := Product(dl, kappa);
      Product(w, Decay(h))
      == w - Weighted(dl, StageSlope(kappa, w, h, 0), StageSlope(kappa, w, h, 1), StageSlope(kappa, w, h, 2), StageSlope(kappa, w, h, 3))
  {
    var h := Product(dl, kappa);
    StagesAddUp(h);
    WeightedLeaves(w, dl, kappa, h, Stage(h, 0), Stage(h, 1), Stage(h, 2), Stage(h, 3), Decay(h));
  }

  /** Conversion goes to 1 at rate kappa and temperature to a at rate lambda. */
  predicate RelaxesAt(g: (real, real) -> Option<(real, real)>, kappa: real, lambda: real, a: real, x: real, t: real) {
    g(x, t) == Some((Product(kappa, 1.0 - x), Product(lambda, a - t)))
  }

  ghost predicate Relaxes(g: (real, real) -> Option<(real, real)>, kappa: real, lambda: real, a: real, x: real, t: real) {
    forall u, v | Between(u, x, 1.0) && Between(v, t, a) :: RelaxesAt(g, kappa, lambda, a, u, v)
  }

  predicate SlopeAt(g: (real, real) -> Option<(real, real)>, x: real, t: real, dx: real, dt: real) {
    g(x, t) == Some((dx, dt))
  }

  /** A step with the four slopes at hand. */
  lemma StepWithSlopes(g: (real, real) -> Option<(real, real)>, dl: real, x: real, t: real,
                       dx: (real, real, real, real), dt: (real, real, real, real))
    requires SlopeAt(g, x, t, dx.0, dt.0)
    requires SlopeAt(g, Ahead(x, 0.5 * dl, dx.0), Ahead(t, 0.5 * dl, dt.0), dx.1, dt.1)
    requires SlopeAt(g, Ahead(x, 0.5 * dl, dx.1), Ahead(t, 0.5 * dl, dt.1), dx.2, dt.2)
    requires SlopeAt(g, Ahead(x, dl, dx.2), Ahead(t, dl, dt.2), dx.3, dt.3)
    ensures RungeKutta(g, dl, x, t)
         == Some((x + Weighted(dl, dx.0, dx.1, dx.2, dx.3), t + Weighted(dl, dt.0, dt.1, dt.2, dt.3)))
  {
  }

  lemma FirstSlope(g: (real, real) -> Option<(real, real)>, kappa: real, lambda: real, a: real, x: real, t: real, h: real, h': real)
    requires Relaxes(g, kappa, lambda, a, x, t)
    ensures SlopeAt(g, x, t, StageSlope(kappa, 1.0 - x, h, 0), StageSlope(lambda, a - t, h', 0))
  {
    assert RelaxesAt(g, kappa, lambda, a, x, t);
    assert Product(1.0 - x, Stage(h, 0)) == 1.0 - x && Product(a - t, Stage(h', 0)) == a - t;
  }

  lemma NextSlope(g: (real, real) -> Option<(real, real)>, kappa: real, lambda: real, a: real, step: real, x: real, t: real,
                  h: real, h': real, i: nat)
    requires 0.0 <= h <= 1.0 && step * kappa == (if i < 2 then 0.5 * h else h)
    requires 0.0 <= h' <= 1.0 && step * lambda == (if i < 2 then 0.5 * h' else h')
    requires Relaxes(g, kappa, lambda, a, x, t)
    ensures SlopeAt(g, Ahead(x, step, StageSlope(kappa, 1.0 - x, h, i)), Ahead(t, step, StageSlope(lambda, a - t, h', i)),
                    StageSlope(kappa, 1.0 - x, h, i + 1), StageSlope(lambda, a - t, h', i + 1))
  {
    NextStage(1.0, x, kappa, step, h, i);
    NextStage(a, t, lambda, step, h', i);
    assert RelaxesAt(g, kappa, lambda, a, Ahead(x, step, StageSlope(kappa, 1.0 - x, h, i)), Ahead(t, step, StageSlope(lambda, a - t, h', i)));
  }

  /** One step leaves the same share of both ways, each at its own rate. */
  lemma RelaxedStep(g: (real, real) -> Option<(real, real)>, kappa: real, lambda: real, a: real, dl: real, x: real, t: real)
    requires 0.0 <= Product(dl, kappa) <= 1.0 && 0.0 <= Product(dl, lambda) <= 1.0 && Relaxes(g, kappa, lambda, a, x, t)
    ensures RungeKutta(g, dl, x, t)
         == Some((1.0 - Product(1.0 - x, Decay(Product(dl, kappa))), a - Product(a - t, Decay(Product(dl, lambda)))))
  {
    var h, h' := Product(dl, kappa), Product(dl, lambda);
    var w, w' := 1.0 - x, a - t;
    FirstSlope(g, kappa, lambda, a, x, t, h, h');
    NextSlope(g, kappa, lambda, a, 0.5 * dl, x, t, h, h', 0);
    NextSlope(g, kappa, lambda, a, 0.5 * dl, x, t, h, h', 1);
    NextSlope(g, kappa, lambda, a, dl, x, t, h, h', 2);
    StepWithSlopes(g, dl, x, t,
                   (StageSlope(kappa, w, h, 0), StageSlope(kappa, w, h, 1), StageSlope(kappa, w, h, 2), StageSlope(kappa, w, h, 3)),
                   (StageSlope(lambda, w', h', 0), StageSlope(lambda, w', h', 1), StageSlope(lambda, w', h', 2), StageSlope(lambda, w', h', 3)));
    StepLeaves(w, dl, kappa);
    StepLeaves(w', dl, lambda);
  }

  // ----- the rate

  /** The exponential: it turns sums into products and lies above its tangent at 0. */
  ghost predicate IsExponential(exp: real -> real) {
    && (forall x, y :: TurnsSums(exp, x, y))
    && (forall x :: AboveTangent(exp, x))
  }

  predicate TurnsSums(exp: real -> real, x: real, y: real) {
    exp(x + y) == exp(x) * exp(y)
  }

  predicate AboveTangent(exp: real -> real, x: real) {
    exp(x) > 0.0 && exp(x) >= 1.0 + x
  }

  lemma ExponentialOfSum(exp: real -> real, x: real, y: real, z: real)
    requires IsExponential(exp) && z == x + y
    ensures exp(z) == exp(x) * exp(y) && exp(x) > 0.0 && exp(y) > 0.0 && exp(y) >= 1.0 + y
  {
    assert TurnsSums(exp, x, y) && AboveTangent(exp, x) && AboveTangent(exp, y);
  }

  lemma ExponentialGrows(exp: real -> real, x: real, y: real)
    requires IsExponential(exp) && x < y
    ensures 0.0 < exp(x) < exp(y)
  {
    ExponentialOfSum(exp, x, y - x, y);
    ScaleLt(exp(x), 1.0, exp(y - x));
  }

  /** The other theorems about cooling apply to it as well. */
  lemma ExponentialIsExp(exp: real -> real)
    requires IsExponential(exp)
    ensures IsExp(exp)
  {
    ExponentialOfSum(exp, 0.0, 0.0, 0.0);
    SameFactor(exp(0.0), 1.0, exp(0.0), exp(0.0));
    forall x, y | x < y ensures 0.0 < exp(x) < exp(y) {
      ExponentialGrows(exp, x, y);
    }
  }

  /** Gas that contains oxygen and is not fully converted. */
  predicate Burns(p: Inlet, z: Zone, oxygen: real, x: real, t: real) {
    z.k0 > 0.0 && p.pressure > 0.0 && p.gas > 0.0 && t > 0.0 && oxygen > 0.0 && x < 1.0
  }

  lemma RateIs(p: Inlet, exp: real -> real, z: Zone, oxygen: real, x: real, t: real)
    requires p.gas * t != 0.0
    ensures Rate(p, exp, z, oxygen, x, t)
         == Product(Product(z.k0, exp(Exponent(p, t))), OxygenDensity(p, oxygen, x, t))
  {
  }

  lemma ProductIsPositive(a: real, b: real)
    requires a > 0.0 && b > 0.0
    ensures Product(a, b) > 0.0
  {
    ScaleLt(a, 0.0, b);
  }

  lemma DensityIsPositive(p: Inlet, oxygen: real, x: real, t: real)
    requires p.pressure > 0.0 && p.gas * t > 0.0 && oxygen > 0.0 && x < 1.0
    ensures OxygenDensity(p, oxygen, x, t) > 0.0
  {
    ProductIsPositive(oxygen, 1.0 - x);
    ProductIsPositive(p.pressure, oxygen * (1.0 - x));
    Quotient(p.pressure * (oxygen * (1.0 - x)), p.gas * t);
    Cancel(0.0, OxygenDensity(p, oxygen, x, t), p.gas * t);
  }

  lemma RateIsPositive(p: Inlet, exp: real -> real, z: Zone, oxygen: real, x: real, t: real)
    requires IsExponential(exp) && Burns(p, z, oxygen, x, t)
    ensures p.gas * t > 0.0 && Rate(p, exp, z, oxygen, x, t) > 0.0
  {
    ProductIsPositive(p.gas, t);
    RateIs(p, exp, z, oxygen, x, t);
    DensityIsPositive(p, oxygen, x, t);
    assert AboveTangent(exp, Exponent(p, t));
    ProductIsPositive(z.k0, exp(Exponent(p, t)));
    ProductIsPositive(Product(z.k0, exp(Exponent(p, t))), OxygenDensity(p, oxygen, x, t));
  }

  /** The rate is proportional to what is left unconverted and to the rate constant. */
  lemma RateIsProportional(p: Inlet, exp: real -> real, z: Zone, oxygen: real, x: real, y: real, t: real, share: real)
    requires p.gas * t != 0.0 && oxygen >= 0.0 && x <= 1.0 && y <= 1.0
    ensures Product(1.0 - y, Rate(p, exp, z, oxygen, x, t)) == Product(1.0 - x, Rate(p, exp, z, oxygen, y, t))
    ensures Rate(p, exp, z.(k0 := share * z.k0), oxygen, x, t) == Product(share, Rate(p, exp, z, oxygen, x, t))
  {
    var v := Product(z.k0, exp(Exponent(p, t)));
    RateLinear(p, exp, z, oxygen, x, t);
    RateLinear(p, exp, z, oxygen, y, t);
    Swaps(v * (p.pressure * oxygen / (p.gas * t)), 1.0 - x, 1.0 - y);
    RateIs(p, exp, z, oxygen, x, t);
    RateIs(p, exp, z.(k0 := share * z.k0), oxygen, x, t);
    Regroup(share, z.k0, exp(Exponent(p, t)), OxygenDensity(p, oxygen, x, t));
  }

  lemma RateLinear(p: Inlet, exp: real -> real, z: Zone, oxygen: real, x: real, t: real)
    requires p.gas * t != 0.0 && oxygen >= 0.0 && x <= 1.0
    ensures Rate(p, exp, z, oxygen, x, t)
         == Product(Product(z.k0, exp(Exponent(p, t))) * (p.pressure * oxygen / (p.gas * t)), 1.0 - x)
  {
    RateIs(p, exp, z, oxygen, x, t);
    ScaleLe(oxygen, 0.0, 1.0 - x);
    assert Largest(0.0, oxygen * (1.0 - x)) == oxygen * (1.0 - x);
    RateInUnits(Product(z.k0, exp(Exponent(p, t))), p.pressure, oxygen, 1.0 - x, p.gas * t);
  }

  lemma RateInUnits(v: real, pressure: real, oxygen: real, w: real, d: real)
    requires d != 0.0
    ensures v * (pressure * (oxygen * w) / d) == Product(v * (pressure * oxygen / d), w)
  {
    Quotient(pressure * (oxygen * w), d);
    Quotient(pressure * oxygen, d);
    SameQuotient(pressure * oxygen / d * w, pressure * (oxygen * w) / d, d);
  }

  lemma SameQuotient(a: real, b: real, d: real)
    requires d != 0.0 && a * d == b * d
    ensures a == b
  {
    if d > 0.0 {
      Cancel(a, b, d);
    } else {
      assert a * -d == b * -d;
      Cancel(a, b, -d);
    }
  }

  lemma Swaps(c: real, x: real, y: real)
    ensures Product(y, Product(c, x)) == Product(x, Product(c, y))
  {
  }

  lemma Regroup(a: real, b: real, c: real, d: real)
    ensures Product(Product(a * b, c), d) == Product(a, Product(Product(b, c), d))
  {
  }

  /** Hotter gas with as many moles of oxygen per volume reacts faster. */
  lemma RateGrowsWithTemperature(p: Inlet, exp: real -> real, z: Zone, oxygen: real, x: real, t: real, hotter: Inlet, t': real)
    requires IsExponential(exp) && Burns(p, z, oxygen, x, t) && t < t' && p.activation > 0.0
    requires hotter == p.(pressure := hotter.pressure) && p.gas * t' != 0.0 && p.gas * t != 0.0
    requires OxygenDensity(hotter, oxygen, x, t') == OxygenDensity(p, oxygen, x, t)
    ensures Rate(p, exp, z, oxygen, x, t) < Rate(hotter, exp, z, oxygen, x, t')
  {
    ExponentRises(p, t, hotter, t');
    ExponentialGrows(exp, Exponent(p, t), Exponent(hotter, t'));
    ProductIsPositive(p.gas, t);
    DensityIsPositive(p, oxygen, x, t);
    RateIs(p, exp, z, oxygen, x, t);
    RateIs(hotter, exp, z, oxygen, x, t');
    Faster(z.k0, exp(Exponent(p, t)), exp(Exponent(hotter, t')), OxygenDensity(p, oxygen, x, t));
  }

  lemma ExponentRises(p: Inlet, t: real, hotter: Inlet, t': real)
    requires p.activation > 0.0 && p.gas > 0.0 && 0.0 < t < t' && hotter == p.(pressure := hotter.pressure)
    requires p.gas * t != 0.0 && p.gas * t' != 0.0
    ensures Exponent(p, t) < Exponent(hotter, t')
  {
    ScaleLt(p.gas, t, t');
    ProductIsPositive(p.gas, t);
    ActivatedMore(p.activation, p.gas * t, p.gas * t');
  }

  lemma Faster(k: real, e: real, e': real, c: real)
    requires k > 0.0 && c > 0.0 && e < e'
    ensures Product(Product(k, e), c) < Product(Product(k, e'), c)
  {
    ScaleLt(k, e, e');
    ScaleLt(c, k * e, k * e');
  }

  lemma ActivatedMore(a: real, d: real, d': real)
    requires a > 0.0 && 0.0 < d < d'
    ensures -a / d < -a / d'
  {
    Quotient(-a, d);
    Quotient(-a, d');
    var u, v := -a / d, -a / d';
    CancelLt(u, 0.0, d, -a, 0.0);
    if v <= u {
      ScaleLe(d', v, u);
      ScaleLt(-u, d, d');
    }
  }

  // ----- reaction without heat

  /** How fast conversion goes to 1 at the temperature t, per length. */
  function Speed(p: Inlet, exp: real -> real, z: Zone, t: real): real
    requires p.flow * (p.gas * t) != 0.0
  {
    p.area * z.k0 * exp(Exponent(p, t)) * p.pressure / (p.flow * (p.gas * t))
  }

  /** What a reacting zone needs: gas that flows and contains oxygen. */
  predicate Flows(p: Inlet, oxygen: real, t: real) {
    p.flow > 0.0 && p.cp != 0.0 && oxygen > 0.0 && p.gas * t > 0.0
  }

  lemma FlowsIs(p: Inlet, oxygen: real, t: real)
    requires Flows(p, oxygen, t)
    ensures p.flow * oxygen > 0.0 && p.flow * (p.gas * t) > 0.0 && p.FlowCp() != 0.0
  {
    ScaleLt(p.flow, 0.0, oxygen);
    ScaleLt(p.flow, 0.0, p.gas * t);
    if p.cp > 0.0 {
      ScaleLt(p.flow, 0.0, p.cp);
    } else {
      ScaleLt(p.flow, p.cp, 0.0);
    }
  }

  lemma UnitsCancel(area: real, f: real, o: real, ke: real, pressure: real, d: real, u: real, q: real, v: real)
    requires f * o != 0.0 && f * d != 0.0 && d != 0.0
    requires u * (f * o) == area && q * d == pressure * o && v * (f * d) == area * ke * pressure
    ensures u * (ke * q) == v
  {
    var a, b := u * (ke * q), v;
    assert a * (f * o * d) == u * (f * o) * ke * (q * d);
    assert b * (f * o * d) == v * (f * d) * o;
    SameQuotient(a, b, f * o * d);
  }

  lemma UnheatedGradient(p: Inlet, exp: real -> real, z: Zone, oxygen: real, x: real, t: real)
    requires p.enthalpy == 0.0 && z.ua == 0.0 && Flows(p, oxygen, t) && x <= 1.0 && p.flow * (p.gas * t) != 0.0
    ensures Gradient(p, exp, z, oxygen, x, t) == Some((Product(Speed(p, exp, z, t), 1.0 - x), 0.0))
  {
    FlowsIs(p, oxygen, t);
    if x < 1.0 {
      Unheated(p, z, Rate(p, exp, z, oxygen, x, t), t);
      UnheatedSpeed(p, exp, z, oxygen, x, t);
    } else {
      Unheated(p, z, 0.0, t);
      Nothing(Speed(p, exp, z, t));
    }
  }

  lemma Nothing(a: real)
    ensures Product(a, 0.0) == 0.0 == Product(0.0, a)
  {
  }

  lemma UnheatedSpeed(p: Inlet, exp: real -> real, z: Zone, oxygen: real, x: real, t: real)
    requires Flows(p, oxygen, t) && x <= 1.0 && p.flow * (p.gas * t) != 0.0 && p.flow * oxygen != 0.0
    ensures ConversionSlope(p, oxygen, Rate(p, exp, z, oxygen, x, t)) == Product(Speed(p, exp, z, t), 1.0 - x)
  {
    var ke, u, q := Product(z.k0, exp(Exponent(p, t))), p.area / (p.flow * oxygen), p.pressure * oxygen / (p.gas * t);
    RateLinear(p, exp, z, oxygen, x, t);
    Quotient(p.area, p.flow * oxygen);
    Quotient(p.pressure * oxygen, p.gas * t);
    SpeedTimes(p, exp, z, t);
    UnitsCancel(p.area, p.flow, oxygen, ke, p.pressure, p.gas * t, u, q, Speed(p, exp, z, t));
    Reassociate(u, ke * q, 1.0 - x, Rate(p, exp, z, oxygen, x, t), Speed(p, exp, z, t));
  }

  lemma SpeedTimes(p: Inlet, exp: real -> real, z: Zone, t: real)
    requires p.gas * t != 0.0 && p.flow * (p.gas * t) != 0.0
    ensures Speed(p, exp, z, t) * (p.flow * (p.gas * t)) == p.area * Product(z.k0, exp(Exponent(p, t))) * p.pressure
  {
    Quotient(p.area * z.k0 * exp(Exponent(p, t)) * p.pressure, p.flow * (p.gas * t));
  }

  lemma Unheated(p: Inlet, z: Zone, rate: real, t: real)
    requires p.FlowCp() != 0.0 && p.enthalpy == 0.0 && z.ua == 0.0
    ensures TemperatureSlope(p, -p.enthalpy * rate - JacketLoss(p, z, t)) == 0.0
    ensures TemperatureSlope(p, -JacketLoss(p, z, t)) == 0.0
  {
    assert p.enthalpy * rate == 0.0 && z.ua * (t - p.jacket) == 0.0;
    Nothing(p.area / p.FlowCp());
  }

  lemma Reassociate(a: real, b: real, w: real, rate: real, speed: real)
    requires rate == Product(b, w) && a * b == speed
    ensures a * rate == Product(speed, w)
  {
  }

  /** In a zone that neither heats nor is cooled, a step leaves exactly the share of the oxygen that the fourth-order
      formula has for its length times the speed of the reaction. */
  lemma UnheatedStep(p: Inlet, exp: real -> real, z: Zone, oxygen: real, dl: real, x: real, t: real)
    requires p.enthalpy == 0.0 && z.ua == 0.0 && Flows(p, oxygen, t) && x <= 1.0
    requires p.flow * (p.gas * t) != 0.0 && 0.0 <= Product(dl, Speed(p, exp, z, t)) <= 1.0
    ensures Coded(p, exp).step(z, oxygen, dl, x, t) == Some((1.0 - Product(1.0 - x, Decay(Product(dl, Speed(p, exp, z, t)))), t))
  {
    var g := (u, v) => Gradient(p, exp, z, oxygen, u, v);
    forall u, v | Between(u, x, 1.0) && Between(v, t, t)
      ensures RelaxesAt(g, Speed(p, exp, z, t), 0.0, t, u, v)
    {
      UnheatedGradient(p, exp, z, oxygen, u, v);
    }
    RelaxedStep(g, Speed(p, exp, z, t), 0.0, t, dl, x, t);
  }

  function Power(g: real, k: nat): real {
    if k == 0 then 1.0 else Product(Power(g, k - 1), g)
  }

  lemma {:induction false} PowerWithin(g: real, k: nat)
    requires 0.0 <= g <= 1.0
    ensures 0.0 <= Power(g, k) <= 1.0
  {
    if k > 0 {
      PowerWithin(g, k - 1);
      PartUp(Power(g, k - 1), g);
    }
  }

  /** After k steps of such a zone. */
  lemma {:induction false} UnheatedSteps(p: Inlet, exp: real -> real, z: Zone, dl: real, s: State, k: nat)
    requires p.enthalpy == 0.0 && z.ua == 0.0 && Flows(p, s.oxygen, s.temp)
    requires p.flow * (p.gas * s.temp) != 0.0 && 0.0 <= Product(dl, Speed(p, exp, z, s.temp)) <= 1.0
    ensures var l := Integrate(Coded(p, exp), z, dl, s, k);
      l.Some? && l.value.conv == 1.0 - Power(Decay(Product(dl, Speed(p, exp, z, s.temp))), k) && l.value.temp == s.temp
  {
    if k > 0 {
      UnheatedSteps(p, exp, z, dl, s, k - 1);
      var h := Product(dl, Speed(p, exp, z, s.temp));
      DecayWithin(h);
      PowerWithin(Decay(h), k - 1);
      PowerWithin(Decay(h), k);
      UnheatedStep(p, exp, z, s.oxygen, dl, 1.0 - Power(Decay(h), k - 1), s.temp);
    }
  }

  /** A whole zone leaves that share as often as it has steps, and the temperature as it was. */
  lemma UnheatedZone(p: Inlet, exp: real -> real, steps: nat, z: Zone, s: State)
    requires p.enthalpy == 0.0 && z.ua == 0.0 && z.length > SKIPPED && steps > 0 && Reacts(p, s) && Flows(p, s.oxygen, s.temp)
    requires p.flow * (p.gas * s.temp) != 0.0 && 0.0 <= Product(z.length / steps as real, Speed(p, exp, z, s.temp)) <= 1.0
    ensures var s' := ZoneStep(p, Coded(p, exp), steps, z, s);
      var left := Power(Decay(Product(z.length / steps as real, Speed(p, exp, z, s.temp))), steps);
      s'.Some? && s'.value.oxygen == Product(s.oxygen, left) && 1.0 - s'.value.conv == Product(1.0 - s.conv, left)
      && s'.value.temp == s.temp
  {
    UnheatedSteps(p, exp, z, z.length / steps as real, s, steps);
    var l := Integrate(Coded(p, exp), z, z.length / steps as real, s, steps).value;
    ZoneLeaves(z, s, l, Power(Decay(Product(z.length / steps as real, Speed(p, exp, z, s.temp))), steps));
  }

  lemma ZoneLeaves(z: Zone, s: State, l: Local, left: real)
    requires l.conv == 1.0 - left
    ensures EndOfZone(z, s, l).oxygen == Product(s.oxygen, left) && 1.0 - EndOfZone(z, s, l).conv == Product(1.0 - s.conv, left)
  {
  }

  /** A zone takes oxygen exactly if it is longer than a micrometre and more than a picomole flows in. */
  lemma UnheatedZoneReactsIff(p: Inlet, exp: real -> real, steps: nat, z: Zone, s: State)
    requires p.enthalpy == 0.0 && z.ua == 0.0 && steps > 0 && Flows(p, s.oxygen, s.temp)
    requires p.flow * (p.gas * s.temp) != 0.0 && 0.0 < Product(z.length / steps as real, Speed(p, exp, z, s.temp)) <= 1.0
    ensures var s' := ZoneStep(p, Coded(p, exp), steps, z, s);
      s'.Some? && (s'.value.oxygen < s.oxygen <==> z.length > 0.000001 && p.flow * s.oxygen > 0.000000000001)
  {
    ReactsMeans(p, s);
    if z.length > SKIPPED && Reacts(p, s) {
      UnheatedZoneTakes(p, exp, steps, z, s, Product(z.length / steps as real, Speed(p, exp, z, s.temp)));
    } else {
      IdleZone(p, Coded(p, exp), steps, z, s);
    }
  }

  lemma UnheatedZoneTakes(p: Inlet, exp: real -> real, steps: nat, z: Zone, s: State, h: real)
    requires p.enthalpy == 0.0 && z.ua == 0.0 && z.length > SKIPPED && steps > 0 && Reacts(p, s) && Flows(p, s.oxygen, s.temp)
    requires p.flow * (p.gas * s.temp) != 0.0 && h == Product(z.length / steps as real, Speed(p, exp, z, s.temp)) && 0.0 < h <= 1.0
    ensures var s' := ZoneStep(p, Coded(p, exp), steps, z, s); s'.Some? && s'.value.oxygen < s.oxygen
  {
    UnheatedZone(p, exp, steps, z, s);
    DecayWithin(h);
    PowerBelow(Decay(h), steps);
    PartIsLess(s.oxygen, Power(Decay(h), steps));
  }

  lemma PartIsLess(w: real, c: real)
    requires 0.0 <= c < 1.0 && 0.0 < w
    ensures Product(w, c) < w
  {
    Fraction(c, w);
    Commutes(w, c);
  }

  lemma ReactsMeans(p: Inlet, s: State)
    ensures Reacts(p, s) <==> p.flow * s.oxygen > 0.000000000001
  {
    var f := p.flow * s.oxygen;
    assert NO_OXYGEN == 0.000000000001;
    assert Reacts(p, s) <==> f > NO_OXYGEN;
  }

  lemma IdleZone(p: Inlet, m: Physics, steps: nat, z: Zone, s: State)
    requires z.length <= SKIPPED || !Reacts(p, s)
    ensures var s' := ZoneStep(p, m, steps, z, s); s'.Some? && s'.value.oxygen == s.oxygen
  {
  }

  lemma PowerBelow(g: real, k: nat)
    requires 0.0 <= g < 1.0 && k > 0
    ensures 0.0 <= Power(g, k) < 1.0
  {
    PowerWithin(g, k - 1);
    PowerWithin(g, k);
    Fraction(Power(g, k - 1), g);
    Commutes(Power(g, k - 1), g);
  }

  // ----- cooling

  /** How fast the temperature goes to the jacket's, per length. */
  function Exchange(p: Inlet, z: Zone): real
    requires p.FlowCp() != 0.0
  {
    p.area / p.FlowCp() * z.ua
  }

  lemma InertGradient(p: Inlet, exp: real -> real, z: Zone, oxygen: real, x: real, t: real)
    requires p.FlowCp() != 0.0 && (x == 1.0 || (z.k0 == 0.0 && x < 1.0 && p.gas * t != 0.0 && p.flow * oxygen != 0.0))
    ensures Gradient(p, exp, z, oxygen, x, t) == Some((0.0, Product(Exchange(p, z), p.jacket - t)))
  {
    if x < 1.0 {
      RateIs(p, exp, z, oxygen, x, t);
      Vanishes(z.k0, exp(Exponent(p, t)), OxygenDensity(p, oxygen, x, t));
      Nothing(p.area / (p.flow * oxygen));
      Cools(p, z, Rate(p, exp, z, oxygen, x, t), t);
    } else {
      Cools(p, z, 0.0, t);
    }
  }

  lemma Cools(p: Inlet, z: Zone, rate: real, t: real)
    requires p.FlowCp() != 0.0 && rate == 0.0
    ensures TemperatureSlope(p, -p.enthalpy * rate - JacketLoss(p, z, t)) == Product(Exchange(p, z), p.jacket - t)
    ensures TemperatureSlope(p, -JacketLoss(p, z, t)) == Product(Exchange(p, z), p.jacket - t)
  {
    Taken(p.area / p.FlowCp(), p.enthalpy, rate, z.ua, t, p.jacket);
  }

  lemma Taken(a: real, enthalpy: real, rate: real, ua: real, t: real, jacket: real)
    requires rate == 0.0
    ensures a * (-ua * (t - jacket)) == Product(a * ua, jacket - t)
    ensures a * (-enthalpy * rate - ua * (t - jacket)) == Product(a * ua, jacket - t)
  {
    var d := ua * (t - jacket);
    assert -ua * (t - jacket) == -d && enthalpy * rate == 0.0;
    assert ua * (jacket - t) == -d;
    assert a * -d == a * (ua * (jacket - t));
  }

  lemma Vanishes(k: real, e: real, c: real)
    requires k == 0.0
    ensures Product(Product(k, e), c) == 0.0
  {
  }

  lemma PositiveBetween(gas: real, v: real, t: real, jacket: real)
    requires gas > 0.0 && t > 0.0 && jacket > 0.0 && Between(v, t, jacket)
    ensures gas * v != 0.0
  {
    ScaleLt(gas, 0.0, v);
  }

  /** Where nothing reacts, a step leaves exactly that share of the difference to the jacket, for the exchange along its
      length. */
  lemma InertStep(p: Inlet, exp: real -> real, z: Zone, oxygen: real, dl: real, x: real, t: real)
    requires p.FlowCp() != 0.0 && 0.0 <= Product(dl, Exchange(p, z)) <= 1.0
    requires x == 1.0 || (z.k0 == 0.0 && x < 1.0 && p.gas > 0.0 && t > 0.0 && p.jacket > 0.0 && p.flow * oxygen != 0.0)
    ensures Coded(p, exp).step(z, oxygen, dl, x, t)
         == Some((x, p.jacket - Product(p.jacket - t, Decay(Product(dl, Exchange(p, z))))))
  {
    var g := (u, v) => Gradient(p, exp, z, oxygen, u, v);
    forall u, v | Between(u, x, 1.0) && Between(v, t, p.jacket)
      ensures RelaxesAt(g, 0.0, Exchange(p, z), p.jacket, u, v)
    {
      if u < 1.0 {
        PositiveBetween(p.gas, v, t, p.jacket);
      }
      InertGradient(p, exp, z, oxygen, u, v);
    }
    RelaxedStep(g, 0.0, Exchange(p, z), p.jacket, dl, x, t);
  }

  /** Cooling along two lengths one after the other is cooling along both. */
  lemma CoolsInTwo(p: Inlet, exp: real -> real, z: Zone, first: real, t: real)
    requires IsExponential(exp)
    ensures Cooled(p, exp, z.(length := z.length - first), Cooled(p, exp, z.(length := first), t)) == Cooled(p, exp, z, t)
  {
    if z.ua > 0.0 && p.FlowCp() > 0.0 {
      var n, n', n'' := Transfer(p, z.(length := first)), Transfer(p, z.(length := z.length - first)), Transfer(p, z);
      TransferAdds(z.ua, p.area, first, z.length, p.FlowCp());
      ExponentialOfSum(exp, -n, -n', -n'');
      assert (t - p.jacket) * exp(-n'') == (t - p.jacket) * exp(-n) * exp(-n');
    }
  }

  /** The number of transfer units of a zone. */
  function Transfer(p: Inlet, z: Zone): real
    requires p.FlowCp() != 0.0
  {
    z.ua * p.area * z.length / p.FlowCp()
  }

  lemma TransferAdds(ua: real, area: real, first: real, length: real, c: real)
    requires c != 0.0
    ensures ua * area * length / c == ua * area * first / c + ua * area * (length - first) / c
  {
  }

  /** A zone with n transfer units takes at most the share n of the difference to the jacket, and at least n / (1 + n). */
  lemma CoolingBounds(p: Inlet, exp: real -> real, z: Zone, t: real)
    requires IsExponential(exp) && z.ua > 0.0 && p.FlowCp() > 0.0 && t >= p.jacket
    ensures var n, left := Transfer(p, z), Cooled(p, exp, z, t) - p.jacket;
      Product(t - p.jacket, 1.0 - n) <= left && Product(left, 1.0 + n) <= t - p.jacket
  {
    var n, d := Transfer(p, z), t - p.jacket;
    ExponentialOfSum(exp, n, -n, 0.0);
    ExponentialOfSum(exp, 0.0, n, n);
    ExponentialOfSum(exp, 0.0, 0.0, 0.0);
    SameFactor(exp(0.0), 1.0, exp(0.0), exp(0.0));
    ScaleLe(d, 1.0 - n, exp(-n));
    LeftTimes(d, exp(-n), exp(n), n);
  }

  lemma LeftTimes(d: real, e: real, e': real, n: real)
    requires d >= 0.0 && e > 0.0 && e' * e == 1.0 && e' >= 1.0 + n
    ensures Product(d * e, 1.0 + n) <= d
  {
    ScaleLe(e, 1.0 + n, e');
    ScaleLe(d, e * (1.0 + n), 1.0);
    assert d * e * (1.0 + n) == d * (e * (1.0 + n));
  }
}
