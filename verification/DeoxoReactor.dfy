/** The multi-zone plug-flow reactor (`solve_deoxo_multizone_jit`). The exponential is a parameter; a division by zero
    ends the run without a result. */
module DeoxoReactor {
  import opened Wrappers
  import opened RealAlgebra

  const SKIPPED: real := 0.000001           // zones up to this length are passed over
  const NO_OXYGEN: real := 0.000000000001   // molar flow up to which a zone only cools

  datatype Zone = Zone(length: real, k0: real, ua: real)

  datatype Inlet = Inlet(temp: real, pressure: real, flow: real, oxygen: real, activation: real, gas: real,
                         enthalpy: real, jacket: real, area: real, cp: real)
  {
    function FlowCp(): real {
      flow * cp
    }
  }

  /** A recorded point of the profile: position, temperature, overall conversion. */
  datatype Point = Point(at: real, temp: real, conv: real)

  /** Between zones. `zones` lists the conversion of each reacting zone so far. */
  datatype State = State(points: seq<Point>, offset: real, temp: real, oxygen: real, peak: real, conv: real, zones: seq<real>)

  /** Inside a zone. */
  datatype Local = Local(points: seq<Point>, conv: real, temp: real, at: real, peak: real)

  // ----- the integration

  /** The moles of oxygen per volume. */
  function OxygenDensity(p: Inlet, oxygen: real, x: real, t: real): real
    requires p.gas * t != 0.0
  {
    p.pressure * Largest(0.0, oxygen * (1.0 - x)) / (p.gas * t)
  }

  function Exponent(p: Inlet, t: real): real
    requires p.gas * t != 0.0
  {
    -p.activation / (p.gas * t)
  }

  /** The reaction rate at conversion x and temperature t. */
  function Rate(p: Inlet, exp: real -> real, z: Zone, oxygen: real, x: real, t: real): real
    requires p.gas * t != 0.0
  {
    z.k0 * exp(Exponent(p, t)) * OxygenDensity(p, oxygen, x, t)
  }

  function ConversionSlope(p: Inlet, oxygen: real, rate: real): real
    requires p.flow * oxygen != 0.0
  {
    p.area / (p.flow * oxygen) * rate
  }

  /** The heat that the jacket takes. */
  function JacketLoss(p: Inlet, z: Zone, t: real): real {
    z.ua * (t - p.jacket)
  }

  /** The temperature slope for the heat that the gas takes up. */
  function TemperatureSlope(p: Inlet, heat: real): real
    requires p.FlowCp() != 0.0
  {
    p.area / p.FlowCp() * heat
  }

  /** The gradients of conversion and temperature at (x, t). */
  function Gradient(p: Inlet, exp: real -> real, z: Zone, oxygen: real, x: real, t: real): Option<(real, real)> {
    if p.FlowCp() == 0.0 then None
    else if x >= 1.0 then Some((0.0, TemperatureSlope(p, -JacketLoss(p, z, t))))
    else if p.gas * t == 0.0 || p.flow * oxygen == 0.0 then None
    else
      var rate := Rate(p, exp, z, oxygen, x, t);
      Some((ConversionSlope(p, oxygen, rate), TemperatureSlope(p, -p.enthalpy * rate - JacketLoss(p, z, t))))
  }

  /** One classical Runge-Kutta step of length dl along the gradient g. */
  function RungeKutta(g: (real, real) -> Option<(real, real)>, dl: real, x: real, t: real): Option<(real, real)> {
    var k1 := g(x, t);
    if k1.None? then None else
    var k2 := g(Ahead(x, 0.5 * dl, k1.value.0), Ahead(t, 0.5 * dl, k1.value.1));
    if k2.None? then None else
    var k3 := g(Ahead(x, 0.5 * dl, k2.value.0), Ahead(t, 0.5 * dl, k2.value.1));
    if k3.None? then None else
    var k4 := g(Ahead(x, dl, k3.value.0), Ahead(t, dl, k3.value.1));
    if k4.None? then None else
    Some((x + Weighted(dl, k1.value.0, k2.value.0, k3.value.0, k4.value.0),
          t + Weighted(dl, k1.value.1, k2.value.1, k3.value.1, k4.value.1)))
  }

  function Ahead(a: real, step: real, slope: real): real {
    a + step * slope
  }

  function Weighted(dl: real, k1: real, k2: real, k3: real, k4: real): real {
    dl / 6.0 * (k1 + 2.0 * k2 + 2.0 * k3 + k4)
  }

  /** Temperature gain at heat flow c is conversion gain at heat flow h. */
  predicate SameHeat(c: real, h: real, dx: real, dt: real) {
    Product(c, dt) == Product(h, dx)
  }

  predicate ConvertsHeatAt(g: (real, real) -> Option<(real, real)>, c: real, h: real, x: real, t: real) {
    g(x, t).Some? ==> SameHeat(c, h, g(x, t).value.0, g(x, t).value.1)
  }

  function HeatPerConversion(p: Inlet, oxygen: real): real {
    -p.enthalpy * (p.flow * oxygen)
  }

  /** In a zone without a jacket every gradient turns conversion into temperature at the same exchange rate. */
  lemma GradientConvertsHeat(p: Inlet, exp: real -> real, z: Zone, oxygen: real, x: real, t: real)
    requires z.ua == 0.0 && Gradient(p, exp, z, oxygen, x, t).Some?
    ensures var (dx, dt) := Gradient(p, exp, z, oxygen, x, t).value; SameHeat(p.FlowCp(), HeatPerConversion(p, oxygen), dx, dt)
  {
    if x < 1.0 {
      var rate := Rate(p, exp, z, oxygen, x, t);
      WithoutJacket(p.area / p.FlowCp(), -p.enthalpy * rate, z.ua, t - p.jacket);
      ExchangeRate(p.area, p.flow * oxygen, p.FlowCp(), -p.enthalpy, rate);
    } else {
      assert -z.ua * (t - p.jacket) == 0.0;
    }
  }

  lemma WithoutJacket(a: real, released: real, ua: real, d: real)
    requires ua == 0.0
    ensures a * (released - ua * d) == a * released
  {
    assert ua * d == 0.0;
  }

  lemma ExchangeRate(area: real, f: real, c: real, h: real, rate: real)
    requires f != 0.0 && c != 0.0
    ensures SameHeat(c, h * f, area / f * rate, area / c * (h * rate))
  {
    Quotient(area, c);
    Quotient(area, f);
    var u, v, drive := area / c, area / f, h * rate;
    assert c * (u * drive) == (u * c) * drive;
    assert h * f * (v * rate) == (v * f) * drive;
  }

  lemma WeightedHeat(c: real, h: real, dl: real, a1: real, a2: real, a3: real, a4: real, b1: real, b2: real, b3: real, b4: real)
    requires SameHeat(c, h, a1, b1) && SameHeat(c, h, a2, b2) && SameHeat(c, h, a3, b3) && SameHeat(c, h, a4, b4)
    ensures SameHeat(c, h, Weighted(dl, a1, a2, a3, a4), Weighted(dl, b1, b2, b3, b4))
  {
    var a, b := a1 + 2.0 * a2 + 2.0 * a3 + a4, b1 + 2.0 * b2 + 2.0 * b3 + b4;
    assert c * b == h * a;
    assert c * (dl / 6.0 * b) == dl / 6.0 * (c * b) && h * (dl / 6.0 * a) == dl / 6.0 * (h * a);
  }

  lemma StepConvertsHeat(g: (real, real) -> Option<(real, real)>, c: real, h: real, dl: real, x: real, t: real)
    requires (forall u, v :: ConvertsHeatAt(g, c, h, u, v)) && RungeKutta(g, dl, x, t).Some?
    ensures var (x', t') := RungeKutta(g, dl, x, t).value; SameHeat(c, h, x' - x, t' - t)
  {
    var k1 := g(x, t);
    assert ConvertsHeatAt(g, c, h, x, t);
    var x2, t2 := Ahead(x, 0.5 * dl, k1.value.0), Ahead(t, 0.5 * dl, k1.value.1);
    var k2 := g(x2, t2);
    assert ConvertsHeatAt(g, c, h, x2, t2);
    var x3, t3 := Ahead(x, 0.5 * dl, k2.value.0), Ahead(t, 0.5 * dl, k2.value.1);
    var k3 := g(x3, t3);
    assert ConvertsHeatAt(g, c, h, x3, t3);
    var x4, t4 := Ahead(x, dl, k3.value.0), Ahead(t, dl, k3.value.1);
    var k4 := g(x4, t4);
    assert ConvertsHeatAt(g, c, h, x4, t4);
    WeightedHeat(c, h, dl, k1.value.0, k2.value.0, k3.value.0, k4.value.0, k1.value.1, k2.value.1, k3.value.1, k4.value.1);
  }

  /** Energy balance of a whole integration step without a jacket: the gas warms by exactly what the converted oxygen
      releases, whatever the kinetics. */
  lemma StepIsAdiabatic(p: Inlet, exp: real -> real, z: Zone, oxygen: real, dl: real, x: real, t: real)
    requires z.ua == 0.0 && Coded(p, exp).step(z, oxygen, dl, x, t).Some?
    ensures var (x', t') := Coded(p, exp).step(z, oxygen, dl, x, t).value;
      SameHeat(p.FlowCp(), HeatPerConversion(p, oxygen), x' - x, t' - t)
  {
    var g := (u, v) => Gradient(p, exp, z, oxygen, u, v);
    forall u, v
      ensures ConvertsHeatAt(g, p.FlowCp(), HeatPerConversion(p, oxygen), u, v)
    {
      if g(u, v).Some? {
        GradientConvertsHeat(p, exp, z, oxygen, u, v);
      }
    }
    StepConvertsHeat(g, p.FlowCp(), HeatPerConversion(p, oxygen), dl, x, t);
  }

  /** Without oxygen the gas only cools towards the jacket. */
  function Cooled(p: Inlet, exp: real -> real, z: Zone, t: real): real {
    if z.ua > 0.0 && p.FlowCp() > 0.0 then p.jacket + (t - p.jacket) * exp(-(z.ua * p.area * z.length / p.FlowCp())) else t
  }

  /** What the bookkeeping below needs of the physics: an integration step at (zone, oxygen, length, x, t), and the
      temperature at the end of a cooling zone. */
  datatype Physics = Physics(step: (Zone, real, real, real, real) -> Option<(real, real)>, cool: (Zone, real) -> real)

  function Coded(p: Inlet, exp: real -> real): Physics {
    Physics((z, oxygen, dl, x, t) => RungeKutta((u, v) => Gradient(p, exp, z, oxygen, u, v), dl, x, t),
            (z, t) => Cooled(p, exp, z, t))
  }

  // ----- the bookkeeping

  function Clamp(x: real): real {
    Least(1.0, Largest(0.0, x))
  }

  /** What is left of a when a share x of it is converted. */
  function Remain(a: real, x: real): real {
    a * (1.0 - x)
  }

  /** Overall conversion once `x` of what is left is converted. */
  function Overall(conv: real, x: real): real {
    1.0 - Remain(1.0 - conv, x)
  }

  function LocalStep(m: Physics, z: Zone, dl: real, s: State, l: Local): Option<Local> {
    var next := m.step(z, s.oxygen, dl, l.conv, l.temp);
    if next.None? then None else
    var x, t, at := Clamp(next.value.0), next.value.1, l.at + dl;
    Some(Local(l.points + [Point(s.offset + at, t, Overall(s.conv, x))], x, t, at, Largest(l.peak, t)))
  }

  function Integrate(m: Physics, z: Zone, dl: real, s: State, k: nat): Option<Local> {
    if k == 0 then Some(Local(s.points, 0.0, s.temp, 0.0, s.peak))
    else
      var l := Integrate(m, z, dl, s, k - 1);
      if l.None? then None else LocalStep(m, z, dl, s, l.value)
  }

  predicate Reacts(p: Inlet, s: State) {
    p.flow * s.oxygen > NO_OXYGEN
  }

  function CoolingZone(m: Physics, z: Zone, s: State): State {
    var t := m.cool(z, s.temp);
    s.(points := s.points + [Point(s.offset + z.length, t, s.conv)], offset := s.offset + z.length, temp := t)
  }

  function EndOfZone(z: Zone, s: State, l: Local): State {
    State(l.points, s.offset + z.length, l.temp, Remain(s.oxygen, l.conv), l.peak, Overall(s.conv, l.conv), s.zones + [l.conv])
  }

  function ZoneStep(p: Inlet, m: Physics, steps: nat, z: Zone, s: State): Option<State> {
    if z.length <= SKIPPED then Some(s)
    else if !Reacts(p, s) then Some(CoolingZone(m, z, s))
    else if steps == 0 then None
    else
      var l := Integrate(m, z, z.length / steps as real, s, steps);
      if l.None? then None else Some(EndOfZone(z, s, l.value))
  }

  function Start(p: Inlet): State {
    State([Point(0.0, p.temp, 0.0)], 0.0, p.temp, p.oxygen, p.temp, 0.0, [])
  }

  function After(p: Inlet, m: Physics, steps: nat, zones: seq<Zone>, k: nat): Option<State>
    requires k <= |zones|
  {
    if k == 0 then Some(Start(p))
    else
      var s := After(p, m, steps, zones, k - 1);
      if s.None? then None else ZoneStep(p, m, steps, zones[k - 1], s.value)
  }

  // ----- what every zone keeps

  function Left(zones: seq<real>): real {
    if zones == [] then 1.0 else Remain(Left(zones[..|zones| - 1]), zones[|zones| - 1])
  }

  function TotalLength(zones: seq<Zone>): real {
    if zones == [] then 0.0
    else
      var z := zones[|zones| - 1];
      TotalLength(zones[..|zones| - 1]) + (if z.length <= SKIPPED then 0.0 else z.length)
  }

  predicate Ordered(points: seq<Point>) {
    |points| > 0 && forall i: nat | i + 1 < |points| :: points[i].at < points[i + 1].at
  }

  predicate ConversionsFrom(points: seq<Point>, start: nat, low: real) {
    forall i: nat | start <= i < |points| :: low <= points[i].conv <= 1.0
  }

  /** The profile is ordered and ends here, and every conversion is a fraction. */
  predicate Shaped(s: State) {
    Ordered(s.points) && s.points[|s.points| - 1].at == s.offset && s.points[|s.points| - 1].conv == s.conv
    && ConversionsFrom(s.points, 0, 0.0) && 0.0 <= s.conv <= 1.0
  }

  /** What is left is the product of what the zones leave, and so is the oxygen, in shares of the inlet's. */
  predicate Balanced(inlet: real, oxygen: real, conv: real, zones: seq<real>) {
    1.0 - conv == Left(zones) && oxygen == Remain(inlet, conv)
  }

  predicate Consistent(p: Inlet, s: State) {
    Shaped(s) && Balanced(p.oxygen, s.oxygen, s.conv, s.zones)
  }

  lemma OverallIsFraction(conv: real, x: real)
    requires 0.0 <= conv <= 1.0 && 0.0 <= x <= 1.0
    ensures conv <= Overall(conv, x) <= 1.0
  {
    Fraction(1.0 - x, 1.0 - conv);
  }

  /** Inside a zone, after k steps. */
  predicate LocalShaped(s: State, l: Local, k: nat) {
    0.0 <= l.conv <= 1.0 && Ordered(l.points) && |l.points| == |s.points| + k
    && LastIs(l.points, s.offset + l.at, Overall(s.conv, l.conv))
    && ConversionsFrom(l.points, 0, 0.0) && ConversionsFrom(l.points, |s.points|, s.conv)
  }

  predicate LastIs(points: seq<Point>, at: real, conv: real) {
    |points| > 0 && points[|points| - 1].at == at && points[|points| - 1].conv == conv
  }

  lemma OneMorePoint(points: seq<Point>, q: Point, start: nat, low: real)
    requires Ordered(points) && points[|points| - 1].at < q.at
    ensures Ordered(points + [q]) && LastIs(points + [q], q.at, q.conv)
    ensures ConversionsFrom(points, start, low) && low <= q.conv <= 1.0 ==> ConversionsFrom(points + [q], start, low)
  {
  }

  lemma LocalStepKeeps(m: Physics, z: Zone, dl: real, s: State, l: Local, k: nat)
    requires dl > 0.0 && 0.0 <= s.conv <= 1.0 && LocalShaped(s, l, k) && LocalStep(m, z, dl, s, l).Some?
    ensures LocalShaped(s, LocalStep(m, z, dl, s, l).value, k + 1)
  {
    var l' := LocalStep(m, z, dl, s, l).value;
    var conv := Overall(s.conv, l'.conv);
    OverallIsFraction(s.conv, l'.conv);
    AddPoint(s, l, l', Point(s.offset + l'.at, l'.temp, conv), conv, k);
  }

  lemma AddPoint(s: State, l: Local, l': Local, q: Point, conv: real, k: nat)
    requires LocalShaped(s, l, k) && l'.points == l.points + [q] && l.at < l'.at && 0.0 <= l'.conv <= 1.0
    requires q.at == s.offset + l'.at && q.conv == conv == Overall(s.conv, l'.conv) && 0.0 <= s.conv <= conv <= 1.0
    ensures LocalShaped(s, l', k + 1)
  {
    OneMorePoint(l.points, q, 0, 0.0);
    OneMorePoint(l.points, q, |s.points|, s.conv);
  }

  lemma {:induction false} IntegrateKeeps(m: Physics, z: Zone, dl: real, s: State, k: nat)
    requires dl > 0.0 && Shaped(s) && Integrate(m, z, dl, s, k).Some?
    ensures LocalShaped(s, Integrate(m, z, dl, s, k).value, k)
  {
    if k > 0 {
      IntegrateKeeps(m, z, dl, s, k - 1);
      LocalStepKeeps(m, z, dl, s, Integrate(m, z, dl, s, k - 1).value, k - 1);
    } else {
      assert Overall(s.conv, 0.0) == s.conv;
    }
  }

  lemma {:induction false} IntegrateLength(m: Physics, z: Zone, dl: real, s: State, k: nat)
    requires Integrate(m, z, dl, s, k).Some?
    ensures Integrate(m, z, dl, s, k).value.at == k as real * dl
  {
    if k > 0 {
      IntegrateLength(m, z, dl, s, k - 1);
      assert k as real * dl == (k - 1) as real * dl + dl;
    }
  }

  /** One zone: everything stays consistent, and the conversion does not fall. */
  lemma ZoneKeeps(p: Inlet, m: Physics, steps: nat, z: Zone, s: State)
    requires Consistent(p, s) && ZoneStep(p, m, steps, z, s).Some?
    ensures var s' := ZoneStep(p, m, steps, z, s).value;
      Consistent(p, s') && s.conv <= s'.conv && |s.points| <= |s'.points| <= |s.points| + steps + 1
      && ConversionsFrom(s'.points, |s.points|, s.conv)
      && s'.offset == s.offset + (if z.length <= SKIPPED then 0.0 else z.length)
  {
    if z.length > SKIPPED {
      if !Reacts(p, s) {
        var q := Point(s.offset + z.length, m.cool(z, s.temp), s.conv);
        OneMorePoint(s.points, q, 0, 0.0);
      } else {
        ReactingZoneKeeps(p, m, steps, z, s);
      }
    }
  }

  lemma ReactingZoneKeeps(p: Inlet, m: Physics, steps: nat, z: Zone, s: State)
    requires Consistent(p, s) && z.length > SKIPPED && Reacts(p, s) && steps > 0
    requires Integrate(m, z, z.length / steps as real, s, steps).Some?
    ensures var s' := EndOfZone(z, s, Integrate(m, z, z.length / steps as real, s, steps).value);
      Consistent(p, s') && s.conv <= s'.conv && |s'.points| == |s.points| + steps
      && ConversionsFrom(s'.points, |s.points|, s.conv)
  {
    WholeZone(m, z, s, steps);
    EndKeeps(p, z, s, Integrate(m, z, z.length / steps as real, s, steps).value, steps);
  }

  lemma WholeZone(m: Physics, z: Zone, s: State, steps: nat)
    requires Shaped(s) && z.length > 0.0 && steps > 0 && Integrate(m, z, z.length / steps as real, s, steps).Some?
    ensures var l := Integrate(m, z, z.length / steps as real, s, steps).value;
      LocalShaped(s, l, steps) && l.at == z.length
  {
    var dl := z.length / steps as real;
    EvenSteps(z.length, steps);
    IntegrateKeeps(m, z, dl, s, steps);
    IntegrateLength(m, z, dl, s, steps);
  }

  lemma EvenSteps(length: real, steps: nat)
    requires length > 0.0 && steps > 0
    ensures length / steps as real > 0.0 && steps as real * (length / steps as real) == length
  {
    var dl := length / steps as real;
    Quotient(length, steps as real);
    Cancel(0.0, dl, steps as real);
  }

  lemma EndKeeps(p: Inlet, z: Zone, s: State, l: Local, steps: nat)
    requires Consistent(p, s) && LocalShaped(s, l, steps) && l.at == z.length
    ensures Consistent(p, EndOfZone(z, s, l)) && s.conv <= Overall(s.conv, l.conv)
  {
    OverallIsFraction(s.conv, l.conv);
    BalanceKeeps(p.oxygen, s.oxygen, s.conv, s.zones, l.conv);
  }

  lemma BalanceKeeps(inlet: real, oxygen: real, conv: real, zones: seq<real>, x: real)
    requires Balanced(inlet, oxygen, conv, zones)
    ensures Balanced(inlet, Remain(oxygen, x), Overall(conv, x), zones + [x])
  {
    LeftAppend(zones, x);
    Rest(inlet, conv, x);
  }

  lemma LeftAppend(zones: seq<real>, x: real)
    ensures Left(zones + [x]) == Remain(Left(zones), x)
  {
    assert (zones + [x])[..|zones|] == zones;
  }

  lemma Rest(y: real, conv: real, x: real)
    ensures Remain(Remain(y, conv), x) == Remain(y, Overall(conv, x))
  {
  }

  /** At the end of any zone of any reactor: the profile is strictly increasing and ends at the total length of the
      zones that count; the overall conversion is what the reacting zones leave of each other's rest, and the oxygen
      carried on is always the inlet's times that rest. */
  lemma {:induction false} ReactorKeeps(p: Inlet, m: Physics, steps: nat, zones: seq<Zone>, k: nat)
    requires k <= |zones| && After(p, m, steps, zones, k).Some?
    ensures var s := After(p, m, steps, zones, k).value;
      Consistent(p, s) && s.offset == TotalLength(zones[..k])
  {
    if k > 0 {
      ReactorKeeps(p, m, steps, zones, k - 1);
      ZoneKeeps(p, m, steps, zones[k - 1], After(p, m, steps, zones, k - 1).value);
      assert zones[..k][..k - 1] == zones[..k - 1];
    }
  }

  /** The profile fits the arrays reserved for it. */
  lemma {:induction false} PointsFit(p: Inlet, m: Physics, steps: nat, zones: seq<Zone>, k: nat)
    requires k <= |zones| && After(p, m, steps, zones, k).Some?
    ensures |After(p, m, steps, zones, k).value.points| <= k * (steps + 1) + 1
  {
    if k > 0 {
      PointsFit(p, m, steps, zones, k - 1);
      ZoneCount(p, m, steps, zones[k - 1], After(p, m, steps, zones, k - 1).value);
      assert k * (steps + 1) == (k - 1) * (steps + 1) + steps + 1;
    }
  }

  lemma ZoneCount(p: Inlet, m: Physics, steps: nat, z: Zone, s: State)
    requires ZoneStep(p, m, steps, z, s).Some?
    ensures |ZoneStep(p, m, steps, z, s).value.points| <= |s.points| + steps + 1
  {
    if z.length > SKIPPED && Reacts(p, s) {
      IntegrateExtends(m, z, z.length / steps as real, s, steps);
    }
  }

  /** The conversion never falls from zone to zone, nor do the points recorded in later zones go below it. */
  lemma {:induction false} ConversionGrows(p: Inlet, m: Physics, steps: nat, zones: seq<Zone>, j: nat, k: nat)
    requires j <= k <= |zones| && After(p, m, steps, zones, k).Some?
    ensures After(p, m, steps, zones, j).Some?
    ensures var a, b := After(p, m, steps, zones, j).value, After(p, m, steps, zones, k).value;
      a.conv <= b.conv && |a.points| <= |b.points| && ConversionsFrom(b.points, |a.points|, a.conv)
      && b.points[..|a.points|] == a.points
    decreases k - j
  {
    if j < k {
      ConversionGrows(p, m, steps, zones, j + 1, k);
      ReactorKeeps(p, m, steps, zones, j);
      ZoneKeeps(p, m, steps, zones[j], After(p, m, steps, zones, j).value);
      ZoneExtends(p, m, steps, zones[j], After(p, m, steps, zones, j).value);
      EarlierPoints(After(p, m, steps, zones, j).value, After(p, m, steps, zones, j + 1).value,
                    After(p, m, steps, zones, k).value);
    }
  }

  lemma EarlierPoints(a: State, b: State, c: State)
    requires a.conv <= b.conv && |a.points| <= |b.points| <= |c.points|
    requires ConversionsFrom(b.points, |a.points|, a.conv) && b.points[..|a.points|] == a.points
    requires ConversionsFrom(c.points, |b.points|, b.conv) && c.points[..|b.points|] == b.points
    ensures ConversionsFrom(c.points, |a.points|, a.conv) && c.points[..|a.points|] == a.points
  {
    forall i: nat | |a.points| <= i < |c.points|
      ensures a.conv <= c.points[i].conv <= 1.0
    {
      if i < |b.points| {
        assert c.points[..|b.points|][i] == b.points[i];
      }
    }
    assert c.points[..|a.points|] == c.points[..|b.points|][..|a.points|];
  }

  lemma {:induction false} IntegrateExtends(m: Physics, z: Zone, dl: real, s: State, k: nat)
    requires Integrate(m, z, dl, s, k).Some?
    ensures var l := Integrate(m, z, dl, s, k).value; |l.points| == |s.points| + k && l.points[..|s.points|] == s.points
  {
    if k > 0 {
      IntegrateExtends(m, z, dl, s, k - 1);
    }
  }

  lemma ZoneExtends(p: Inlet, m: Physics, steps: nat, z: Zone, s: State)
    requires ZoneStep(p, m, steps, z, s).Some?
    ensures var s' := ZoneStep(p, m, steps, z, s).value; |s.points| <= |s'.points| && s'.points[..|s.points|] == s.points
  {
    if z.length > SKIPPED && Reacts(p, s) {
      IntegrateExtends(m, z, z.length / steps as real, s, steps);
    }
  }

  // ----- the peak temperature

  ghost predicate IsExp(exp: real -> real) {
    exp(0.0) == 1.0 && forall x, y | x < y :: 0.0 < exp(x) < exp(y)
  }

  /** A cooling zone moves the temperature towards the jacket's, and not past it. */
  lemma CoolingIsTowardsJacket(p: Inlet, exp: real -> real, z: Zone, t: real)
    requires IsExp(exp) && z.length > 0.0 && p.area > 0.0
    ensures Cooled(p, exp, z, t) <= Largest(t, p.jacket)
    ensures Cooled(p, exp, z, t) > t <==> z.ua > 0.0 && p.FlowCp() > 0.0 && p.jacket > t
  {
    if Exchanges(p, z) {
      CooledIsNearer(p, exp, z, t);
    }
  }

  lemma TransferUnits(ua: real, area: real, length: real, flowCp: real)
    requires ua > 0.0 && area > 0.0 && length > 0.0 && flowCp > 0.0
    ensures ua * area * length / flowCp > 0.0
  {
    ScaleLt(ua, 0.0, area);
    ScaleLt(ua * area, 0.0, length);
    Quotient(ua * area * length, flowCp);
    Cancel(0.0, ua * area * length / flowCp, flowCp);
  }

  /** No recorded point is hotter than the reported peak. */
  predicate PeakCovers(s: State) {
    forall i | 0 <= i < |s.points| :: s.points[i].temp <= s.peak
  }

  /** What leaves a zone is what was recorded last. */
  predicate LastTemp(s: State) {
    s.points != [] && s.points[|s.points| - 1].temp == s.temp
  }

  lemma {:induction false} IntegratePeak(m: Physics, z: Zone, dl: real, s: State, k: nat)
    requires Integrate(m, z, dl, s, k).Some? && LastTemp(s)
    ensures var l := Integrate(m, z, dl, s, k).value;
      && s.peak <= l.peak && l.points != [] && l.points[|l.points| - 1].temp == l.temp
      && (PeakCovers(s) ==> forall i | 0 <= i < |l.points| :: l.points[i].temp <= l.peak)
  {
    if k > 0 {
      IntegratePeak(m, z, dl, s, k - 1);
    }
  }

  lemma {:induction false} TempIsRecorded(p: Inlet, m: Physics, steps: nat, zones: seq<Zone>, k: nat)
    requires k <= |zones| && After(p, m, steps, zones, k).Some?
    ensures LastTemp(After(p, m, steps, zones, k).value)
  {
    if k > 0 {
      TempIsRecorded(p, m, steps, zones, k - 1);
      var s, z := After(p, m, steps, zones, k - 1).value, zones[k - 1];
      if z.length > SKIPPED && Reacts(p, s) {
        IntegratePeak(m, z, z.length / steps as real, s, steps);
      }
    }
  }

  /** The wall of this zone exchanges heat. */
  predicate Exchanges(p: Inlet, z: Zone) {
    z.ua > 0.0 && p.FlowCp() > 0.0
  }

  /** A cooling zone leaves the temperature alone, or brings it strictly nearer to the jacket's. */
  predicate CoolsAt(p: Inlet, m: Physics, z: Zone, t: real) {
    var u := m.cool(z, t);
    if z.length <= SKIPPED then true
    else if !Exchanges(p, z) || t == p.jacket then u == t
    else if t < p.jacket then t < u < p.jacket
    else p.jacket < u < t
  }

  ghost predicate CoolsTowardsJacket(p: Inlet, m: Physics) {
    forall z, t :: CoolsAt(p, m, z, t)
  }

  /** The share of the difference to the jacket that is left at the end of the zone. */
  lemma RestOfDifference(p: Inlet, exp: real -> real, z: Zone) returns (e: real)
    requires IsExp(exp) && p.area > 0.0 && Exchanges(p, z) && z.length > 0.0
    ensures e == exp(-(z.ua * p.area * z.length / p.FlowCp())) && 0.0 < e < 1.0
  {
    TransferUnits(z.ua, p.area, z.length, p.FlowCp());
    var x := -(z.ua * p.area * z.length / p.FlowCp());
    e := exp(x);
    assert exp(x) < exp(0.0);
  }

  lemma CodedCools(p: Inlet, exp: real -> real)
    requires IsExp(exp) && p.area > 0.0
    ensures CoolsTowardsJacket(p, Coded(p, exp))
  {
    forall z, t
      ensures CoolsAt(p, Coded(p, exp), z, t)
    {
      if Exchanges(p, z) && z.length > SKIPPED {
        CooledIsNearer(p, exp, z, t);
      }
    }
  }

  lemma CooledIsNearer(p: Inlet, exp: real -> real, z: Zone, t: real)
    requires IsExp(exp) && p.area > 0.0 && Exchanges(p, z) && z.length > 0.0
    ensures var u := Cooled(p, exp, z, t);
      if t == p.jacket then u == t else if t < p.jacket then t < u < p.jacket else p.jacket < u < t
  {
    var e := RestOfDifference(p, exp, z);
    StrictlyBetween(p.jacket, t, e);
  }

  lemma StrictlyBetween(a: real, t: real, e: real)
    requires 0.0 < e < 1.0
    ensures t < a ==> t < a + (t - a) * e < a
    ensures a < t ==> a < a + (t - a) * e < t
    ensures a == t ==> a + (t - a) * e == t
  {
    if t < a {
      MeanBetween(1.0 - e, t, a);
      MeanGrowsWithWeight(1.0 - e, 1.0, t, a);
      assert a + (t - a) * e == Mix(1.0 - e, t, a) && Mix(1.0, t, a) == a;
    } else if a < t {
      MeanBetween(e, a, t);
      MeanGrowsWithWeight(e, 1.0, a, t);
      assert a + (t - a) * e == Mix(e, a, t) && Mix(1.0, a, t) == t;
    }
  }

  /** The zone does not lift the profile above the peak: it is skipped, it reacts and so updates the peak, or its end
      is no hotter. */
  predicate KeepsPeak(p: Inlet, m: Physics, s: State, z: Zone) {
    z.length <= SKIPPED || Reacts(p, s) || m.cool(z, s.temp) <= s.peak
  }

  lemma CoolingZonePeak(m: Physics, z: Zone, s: State)
    ensures PeakCovers(CoolingZone(m, z, s)) <==> PeakCovers(s) && m.cool(z, s.temp) <= s.peak
  {
    var s' := CoolingZone(m, z, s);
    assert s'.points[|s.points|].temp == m.cool(z, s.temp);
    assert forall i | 0 <= i < |s.points| :: s'.points[i] == s.points[i];
  }

  /** From any state whose profile the peak covers, a zone keeps it covered exactly if it does not lift it; and behind
      the last oxygen the peak is never set again. */
  lemma ZoneKeepsPeakIff(p: Inlet, m: Physics, steps: nat, z: Zone, s: State)
    requires ZoneStep(p, m, steps, z, s).Some? && LastTemp(s)
    ensures PeakCovers(s) ==> (PeakCovers(ZoneStep(p, m, steps, z, s).value) <==> KeepsPeak(p, m, s, z))
    ensures !PeakCovers(s) && !Reacts(p, s) ==> !PeakCovers(ZoneStep(p, m, steps, z, s).value)
    ensures !Reacts(p, s) ==> !Reacts(p, ZoneStep(p, m, steps, z, s).value)
  {
    if z.length > SKIPPED {
      if Reacts(p, s) {
        IntegratePeak(m, z, z.length / steps as real, s, steps);
      } else {
        CoolingZonePeak(m, z, s);
      }
    }
  }

  predicate KeepsPeakAt(p: Inlet, m: Physics, steps: nat, zones: seq<Zone>, i: nat)
    requires i < |zones|
  {
    var s := After(p, m, steps, zones, i);
    s.Some? ==> KeepsPeak(p, m, s.value, zones[i])
  }

  /** For every list of zones and every physics, the peak covers the profile exactly if no zone without oxygen ends
      hotter than the peak it finds. */
  lemma {:induction false} PeakCoversIff(p: Inlet, m: Physics, steps: nat, zones: seq<Zone>, k: nat)
    requires k <= |zones| && After(p, m, steps, zones, k).Some?
    ensures var s := After(p, m, steps, zones, k).value;
      && (PeakCovers(s) <==> forall i: nat | i < k :: KeepsPeakAt(p, m, steps, zones, i))
      && (!PeakCovers(s) ==> !Reacts(p, s))
  {
    if k > 0 {
      PeakCoversIff(p, m, steps, zones, k - 1);
      TempIsRecorded(p, m, steps, zones, k - 1);
      ZoneKeepsPeakIff(p, m, steps, zones[k - 1], After(p, m, steps, zones, k - 1).value);
      assert KeepsPeakAt(p, m, steps, zones, k - 1) <==> KeepsPeak(p, m, After(p, m, steps, zones, k - 1).value, zones[k - 1]);
    }
  }

  /** The zone warms gas that enters it at the inlet's temperature. */
  predicate HeatsInlet(p: Inlet, z: Zone) {
    z.length > SKIPPED && Exchanges(p, z) && p.jacket > p.temp
  }

  /** Without oxygen at the inlet: the peak is still the inlet's, and the gas has at most moved towards the jacket. */
  predicate OxygenFree(p: Inlet, s: State) {
    && s.oxygen == p.oxygen && s.peak == p.temp && LastTemp(s)
    && (if p.jacket > p.temp then s.temp >= p.temp else s.temp <= p.temp)
  }

  lemma OxygenFreeZone(p: Inlet, m: Physics, steps: nat, z: Zone, s: State)
    requires CoolsTowardsJacket(p, m) && p.flow * p.oxygen <= NO_OXYGEN && OxygenFree(p, s)
    ensures ZoneStep(p, m, steps, z, s).Some? && OxygenFree(p, ZoneStep(p, m, steps, z, s).value)
    ensures PeakCovers(ZoneStep(p, m, steps, z, s).value) <==> PeakCovers(s) && !HeatsInlet(p, z)
  {
    assert !Reacts(p, s);
    if z.length > SKIPPED {
      assert CoolsAt(p, m, z, s.temp);
      CoolingZonePeak(m, z, s);
    }
  }

  /** Without oxygen at the inlet, the profile exceeds the peak exactly if one of the zones exchanges heat with a
      jacket hotter than the inlet. */
  lemma {:induction false} PeakMissedIff(p: Inlet, m: Physics, steps: nat, zones: seq<Zone>, k: nat)
    requires CoolsTowardsJacket(p, m) && p.flow * p.oxygen <= NO_OXYGEN && k <= |zones|
    ensures After(p, m, steps, zones, k).Some? && OxygenFree(p, After(p, m, steps, zones, k).value)
    ensures PeakCovers(After(p, m, steps, zones, k).value) <==> forall i | 0 <= i < k :: !HeatsInlet(p, zones[i])
  {
    if k > 0 {
      PeakMissedIff(p, m, steps, zones, k - 1);
      OxygenFreeZone(p, m, steps, zones[k - 1], After(p, m, steps, zones, k - 1).value);
    }
  }

  /** Zones that cannot warm gas at the inlet's temperature never lift the profile above the peak. */
  lemma {:induction false} NoHeatingCovers(p: Inlet, m: Physics, steps: nat, zones: seq<Zone>, k: nat)
    requires CoolsTowardsJacket(p, m) && k <= |zones| && After(p, m, steps, zones, k).Some?
    requires forall i | 0 <= i < k :: !HeatsInlet(p, zones[i])
    ensures var s := After(p, m, steps, zones, k).value; PeakCovers(s) && p.temp <= s.peak && LastTemp(s)
  {
    TempIsRecorded(p, m, steps, zones, k);
    if k > 0 {
      NoHeatingCovers(p, m, steps, zones, k - 1);
      NoHeatingZone(p, m, steps, zones[k - 1], After(p, m, steps, zones, k - 1).value);
    }
  }

  lemma NoHeatingZone(p: Inlet, m: Physics, steps: nat, z: Zone, s: State)
    requires CoolsTowardsJacket(p, m) && !HeatsInlet(p, z) && PeakCovers(s) && p.temp <= s.peak && LastTemp(s)
    requires ZoneStep(p, m, steps, z, s).Some?
    ensures var s' := ZoneStep(p, m, steps, z, s).value; PeakCovers(s') && p.temp <= s'.peak
  {
    ZoneKeepsPeakIff(p, m, steps, z, s);
    if z.length > SKIPPED {
      assert CoolsAt(p, m, z, s.temp);
      if Reacts(p, s) {
        IntegratePeak(m, z, z.length / steps as real, s, steps);
      }
    }
  }

  /** The peak covers the profile when this much oxygen comes in. */
  predicate HonestFor(p: Inlet, m: Physics, steps: nat, zones: seq<Zone>, oxygen: real) {
    var s := After(p.(oxygen := oxygen), m, steps, zones, |zones|);
    s.Some? ==> PeakCovers(s.value)
  }

  /** Before the call: the reported peak can be trusted for every oxygen content exactly if no counting zone exchanges
      heat with a jacket hotter than the inlet. */
  lemma HonestForAllIff(p: Inlet, m: Physics, steps: nat, zones: seq<Zone>)
    requires CoolsTowardsJacket(p, m)
    ensures (forall oxygen :: HonestFor(p, m, steps, zones, oxygen)) <==> forall i | 0 <= i < |zones| :: !HeatsInlet(p, zones[i])
  {
    forall oxygen
      ensures CoolsTowardsJacket(p.(oxygen := oxygen), m)
      ensures forall z :: HeatsInlet(p.(oxygen := oxygen), z) <==> HeatsInlet(p, z)
    {
      SameCooling(p, oxygen, m);
    }
    if forall i | 0 <= i < |zones| :: !HeatsInlet(p, zones[i]) {
      forall oxygen
        ensures HonestFor(p, m, steps, zones, oxygen)
      {
        if After(p.(oxygen := oxygen), m, steps, zones, |zones|).Some? {
          NoHeatingCovers(p.(oxygen := oxygen), m, steps, zones, |zones|);
        }
      }
    } else {
      PeakMissedIff(p.(oxygen := 0.0), m, steps, zones, |zones|);
      assert !HonestFor(p, m, steps, zones, 0.0);
    }
  }

  lemma SameCooling(p: Inlet, oxygen: real, m: Physics)
    requires CoolsTowardsJacket(p, m)
    ensures CoolsTowardsJacket(p.(oxygen := oxygen), m)
    ensures forall z :: HeatsInlet(p.(oxygen := oxygen), z) <==> HeatsInlet(p, z)
  {
    forall z, t
      ensures CoolsAt(p.(oxygen := oxygen), m, z, t)
    {
      assert CoolsAt(p, m, z, t);
    }
  }

  /** Behind the last oxygen the gas only ever comes nearer to the jacket. */
  predicate Overshot(p: Inlet, s: State) {
    !Reacts(p, s) && s.peak < s.temp < p.jacket
  }

  /** Whoever runs the solver can tell from the results: the reported peak is the hottest recorded temperature exactly
      if the gas leaves no hotter than it. */
  lemma {:induction false} PeakHonestIff(p: Inlet, m: Physics, steps: nat, zones: seq<Zone>, k: nat)
    requires CoolsTowardsJacket(p, m) && k <= |zones| && After(p, m, steps, zones, k).Some?
    ensures var s := After(p, m, steps, zones, k).value;
      (PeakCovers(s) <==> s.temp <= s.peak) && (PeakCovers(s) || Overshot(p, s))
  {
    TempIsRecorded(p, m, steps, zones, k);
    if k > 0 {
      PeakHonestIff(p, m, steps, zones, k - 1);
      var s, z := After(p, m, steps, zones, k - 1).value, zones[k - 1];
      TempIsRecorded(p, m, steps, zones, k - 1);
      ZoneKeepsPeakIff(p, m, steps, z, s);
      if z.length > SKIPPED && !Reacts(p, s) {
        assert CoolsAt(p, m, z, s.temp);
        CoolingZonePeak(m, z, s);
      }
    }
  }

  // ----- the loops

  predicate Recorded(ls: seq<real>, ts: seq<real>, xs: seq<real>, points: seq<Point>) {
    |points| <= |ls| == |ts| == |xs| && forall i: nat | i < |points| :: RecordedAt(ls, ts, xs, points[i], i)
  }

  predicate RecordedAt(ls: seq<real>, ts: seq<real>, xs: seq<real>, q: Point, i: nat)
    requires i < |ls| == |ts| == |xs|
  {
    ls[i] == q.at && ts[i] == q.temp && xs[i] == q.conv
  }

  lemma RecordMore(ls: seq<real>, ts: seq<real>, xs: seq<real>, points: seq<Point>, q: Point,
                   ls': seq<real>, ts': seq<real>, xs': seq<real>)
    requires Recorded(ls, ts, xs, points) && |points| < |ls|
    requires ls' == ls[|points| := q.at] && ts' == ts[|points| := q.temp] && xs' == xs[|points| := q.conv]
    ensures Recorded(ls', ts', xs', points + [q])
  {
    forall i: nat | i < |points| + 1
      ensures RecordedAt(ls', ts', xs', (points + [q])[i], i)
    {
      if i < |points| {
        assert RecordedAt(ls, ts, xs, points[i], i);
      }
    }
  }

  method Record(ls: array<real>, ts: array<real>, xs: array<real>, index: nat, q: Point, ghost points: seq<Point>)
    requires ls != ts && ls != xs && ts != xs && ls.Length == ts.Length == xs.Length && index < ls.Length
    requires index == |points| && Recorded(ls[..], ts[..], xs[..], points)
    modifies ls, ts, xs
    ensures Recorded(ls[..], ts[..], xs[..], points + [q])
  {
    ghost var was := (ls[..], ts[..], xs[..]);
    ls[index], ts[index], xs[index] := q.at, q.temp, q.conv;
    RecordMore(was.0, was.1, was.2, points, q, ls[..], ts[..], xs[..]);
  }

  /** The integration loop of one zone; it writes from `first` on. */
  method IntegrateZone(m: Physics, z: Zone, steps: nat, first: nat, ghost s: State, offset: real, conv: real, oxygen: real,
                       temp: real, peak: real, ls: array<real>, ts: array<real>, xs: array<real>)
    returns (l: Option<(real, real, real)>)
    requires ls != ts && ls != xs && ts != xs && ls.Length == ts.Length == xs.Length && first + steps <= ls.Length
    requires steps > 0 && first == |s.points| && Recorded(ls[..], ts[..], xs[..], s.points)
    requires s.offset == offset && s.conv == conv && s.oxygen == oxygen && s.temp == temp && s.peak == peak
    modifies ls, ts, xs
    ensures var r := Integrate(m, z, z.length / steps as real, s, steps);
      (l.None? <==> r.None?)
      && (l.Some? ==> l.value == (r.value.conv, r.value.temp, r.value.peak) && |r.value.points| == first + steps
                      && Recorded(ls[..], ts[..], xs[..], r.value.points))
  {
    var dl := z.length / steps as real;
    var xLocal, tLocal, lLocal, tMax := 0.0, temp, 0.0, peak;
    ghost var local := Local(s.points, 0.0, s.temp, 0.0, s.peak);
    var step := 0;
    while step < steps
      invariant step <= steps && Integrate(m, z, dl, s, step) == Some(local) && |local.points| == first + step
      invariant local.conv == xLocal && local.temp == tLocal && local.at == lLocal && local.peak == tMax
      invariant Recorded(ls[..], ts[..], xs[..], local.points)
    {
      var next := m.step(z, oxygen, dl, xLocal, tLocal);
      if next.None? {
        StopsForGood(m, z, dl, s, step + 1, steps);
        return None;
      }
      xLocal := Least(1.0, Largest(0.0, next.value.0));
      tLocal := next.value.1;
      lLocal := lLocal + dl;
      if tLocal > tMax {
        tMax := tLocal;
      }
      var q := Point(offset + lLocal, tLocal, Overall(conv, xLocal));
      Record(ls, ts, xs, first + step, q, local.points);
      local := Local(local.points + [q], xLocal, tLocal, lLocal, tMax);
      step := step + 1;
    }
    l := Some((xLocal, tLocal, tMax));
  }

  lemma {:induction false} StopsForGood(m: Physics, z: Zone, dl: real, s: State, j: nat, k: nat)
    requires j <= k && Integrate(m, z, dl, s, j).None?
    ensures Integrate(m, z, dl, s, k).None?
    decreases k
  {
    if j < k {
      StopsForGood(m, z, dl, s, j, k - 1);
    }
  }

  lemma {:induction false} NoResultForGood(p: Inlet, m: Physics, steps: nat, zones: seq<Zone>, j: nat, k: nat)
    requires j <= k <= |zones| && After(p, m, steps, zones, j).None?
    ensures After(p, m, steps, zones, k).None?
    decreases k
  {
    if j < k {
      NoResultForGood(p, m, steps, zones, j, k - 1);
    }
  }

  datatype Profile = Profile(conv: real, temp: real, peak: real, ls: seq<real>, ts: seq<real>, xs: seq<real>)

  /** What the solver returns for a final state. */
  predicate Reports(r: Profile, s: State) {
    r.conv == s.conv && r.temp == s.temp && r.peak == s.peak
    && |r.ls| == |s.points| && Recorded(r.ls, r.ts, r.xs, s.points)
  }

  lemma CutOff(ls: seq<real>, ts: seq<real>, xs: seq<real>, points: seq<Point>)
    requires Recorded(ls, ts, xs, points)
    ensures Recorded(ls[..|points|], ts[..|points|], xs[..|points|], points)
  {
    forall i: nat | i < |points|
      ensures RecordedAt(ls[..|points|], ts[..|points|], xs[..|points|], points[i], i)
    {
      assert RecordedAt(ls, ts, xs, points[i], i);
    }
  }

  /** One pass of the zone loop: the new index and scalars, or None after a division by zero. */
  method SolveZone(p: Inlet, m: Physics, steps: nat, z: Zone, ghost s: State, index: nat, offset: real, temp: real, oxygen: real,
                   peak: real, conv: real, ls: array<real>, ts: array<real>, xs: array<real>)
    returns (next: Option<(nat, real, real, real, real, real)>)
    requires ls != ts && ls != xs && ts != xs && ls.Length == ts.Length == xs.Length && index + steps + 1 <= ls.Length
    requires index == |s.points| && Recorded(ls[..], ts[..], xs[..], s.points)
    requires s.offset == offset && s.conv == conv && s.oxygen == oxygen && s.temp == temp && s.peak == peak
    modifies ls, ts, xs
    ensures var r := ZoneStep(p, m, steps, z, s);
      (next.None? <==> r.None?)
      && (next.Some? ==> next.value == (|r.value.points|, r.value.offset, r.value.temp, r.value.oxygen, r.value.peak, r.value.conv)
                         && Recorded(ls[..], ts[..], xs[..], r.value.points))
  {
    if z.length <= SKIPPED {
      return Some((index, offset, temp, oxygen, peak, conv));
    }
    if p.flow * oxygen <= NO_OXYGEN {
      var cooled := m.cool(z, temp);
      Record(ls, ts, xs, index, Point(offset + z.length, cooled, conv), s.points);
      return Some((index + 1, offset + z.length, cooled, oxygen, peak, conv));
    }
    if steps == 0 {
      return None;
    }
    var l := IntegrateZone(m, z, steps, index, s, offset, conv, oxygen, temp, peak, ls, ts, xs);
    match l
    case None => next := None;
    case Some((x, t, tMax)) =>
      next := Some((index + steps, offset + z.length, t, Remain(oxygen, x), tMax, Overall(conv, x)));
  }

  /** The zone loop. Every write stays inside the arrays: the index needs no check of its own. */
  method SolveDeoxoMultizone(p: Inlet, m: Physics, steps: nat, zones: seq<Zone>) returns (r: Option<Profile>)
    ensures var s := After(p, m, steps, zones, |zones|);
      (r.None? <==> s.None?) && (r.Some? ==> Reports(r.value, s.value))
  {
    var size := |zones| * (steps + 1) + 1;
    var ls, ts, xs := new real[size](i => 0.0), new real[size](i => 0.0), new real[size](i => 0.0);
    ghost var s := Start(p);
    ls[0], ts[0], xs[0] := 0.0, p.temp, 0.0;
    var index, offset, temp, oxygen, peak, conv := 1, 0.0, p.temp, p.oxygen, p.temp, 0.0;
    for i := 0 to |zones|
      invariant After(p, m, steps, zones, i) == Some(s) && index == |s.points|
      invariant s.offset == offset && s.conv == conv && s.oxygen == oxygen && s.temp == temp && s.peak == peak
      invariant Recorded(ls[..], ts[..], xs[..], s.points)
    {
      RoomLeft(p, m, steps, zones, i, size);
      var next := SolveZone(p, m, steps, zones[i], s, index, offset, temp, oxygen, peak, conv, ls, ts, xs);
      if next.None? {
        NoResultForGood(p, m, steps, zones, i + 1, |zones|);
        return None;
      }
      s := ZoneStep(p, m, steps, zones[i], s).value;
      index, offset, temp := next.value.0, next.value.1, next.value.2;
      oxygen, peak, conv := next.value.3, next.value.4, next.value.5;
    }
    CutOff(ls[..], ts[..], xs[..], s.points);
    r := Some(Profile(conv, temp, peak, ls[..index], ts[..index], xs[..index]));
  }

  lemma RoomLeft(p: Inlet, m: Physics, steps: nat, zones: seq<Zone>, i: nat, size: nat)
    requires i < |zones| && size == |zones| * (steps + 1) + 1 && After(p, m, steps, zones, i).Some?
    ensures |After(p, m, steps, zones, i).value.points| + steps + 1 <= size
  {
    PointsFit(p, m, steps, zones, i);
    MoreZones(i + 1, |zones|, steps + 1);
  }

  lemma MoreZones(i: nat, n: nat, per: nat)
    requires i <= n
    ensures i * per <= n * per
  {
  }
}
