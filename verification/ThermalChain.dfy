/** The chain of N thermal cells along the coolant (`step_stack_thermal_nd_jit`, `StackThermalModelND`). */
module ThermalChain {
  import opened RealAlgebra

  const FLOW_MIN: real := 0.000001  // below this the coolant does not warm up along the stack

  datatype Plate = Plate(capacity: real, cpCoolant: real, hAExt: real, hAInter: real)
  {
    predicate Valid() {
      capacity > 0.0 && cpCoolant > 0.0 && hAExt >= 0.0 && hAInter >= 0.0
    }
  }

  /** What drives one step: heat per cell, coolant inlet temperature and mass flow, and the time step. */
  datatype Drive = Drive(heat: real, inlet: real, flow: real, dt: real)

  // ----- one step

  /** Heat that a cell at t hands to the coolant. */
  function Drawn(p: Plate, t: real, coolant: real): real {
    (t - coolant) * p.hAExt
  }

  function Conducted(p: Plate, source: real, target: real): real {
    (source - target) * p.hAInter
  }

  function Warmed(p: Plate, d: Drive, coolant: real, q: real): real
    requires p.Valid()
  {
    if d.flow > FLOW_MIN then coolant + q / (d.flow * p.cpCoolant) else coolant
  }

  function Heated(p: Plate, d: Drive, t: real, net: real): real
    requires p.Valid()
  {
    t + d.dt * (net / p.capacity)
  }

  /** The coolant temperature that cell i meets; at |temps| it is the outlet's. */
  function Coolant(p: Plate, d: Drive, temps: seq<real>, i: nat): real
    requires p.Valid() && i <= |temps|
    decreases i, 0
  {
    if i == 0 then d.inlet
    else Warmed(p, d, Coolant(p, d, temps, i - 1), ToCoolant(p, d, temps, i - 1))
  }

  function ToCoolant(p: Plate, d: Drive, temps: seq<real>, i: nat): real
    requires p.Valid() && i < |temps|
    decreases i, 1
  {
    Drawn(p, temps[i], Coolant(p, d, temps, i))
  }

  function Draws(p: Plate, d: Drive, temps: seq<real>): (r: seq<real>)
    requires p.Valid()
    ensures |r| == |temps| && forall i | 0 <= i < |r| :: r[i] == ToCoolant(p, d, temps, i)
  {
    seq(|temps|, i requires 0 <= i < |temps| => ToCoolant(p, d, temps, i))
  }

  /** All the heat the coolant takes away in the step. */
  function Removed(p: Plate, d: Drive, temps: seq<real>): real
    requires p.Valid()
  {
    Sum(Draws(p, d, temps))
  }

  function FromLeft(p: Plate, temps: seq<real>, i: nat): real
    requires i < |temps|
  {
    if i > 0 then Conducted(p, temps[i - 1], temps[i]) else 0.0
  }

  function FromRight(p: Plate, temps: seq<real>, i: nat): real
    requires i < |temps|
  {
    if i < |temps| - 1 then Conducted(p, temps[i + 1], temps[i]) else 0.0
  }

  /** The heat cell i keeps. */
  function Net(p: Plate, d: Drive, temps: seq<real>, i: nat): real
    requires p.Valid() && i < |temps|
  {
    d.heat + FromLeft(p, temps, i) + FromRight(p, temps, i) - ToCoolant(p, d, temps, i)
  }

  function NextAt(p: Plate, d: Drive, temps: seq<real>, i: nat): real
    requires p.Valid() && i < |temps|
  {
    Heated(p, d, temps[i], Net(p, d, temps, i))
  }

  function Next(p: Plate, d: Drive, temps: seq<real>): (r: seq<real>)
    requires p.Valid()
    ensures |r| == |temps| && forall i | 0 <= i < |r| :: r[i] == NextAt(p, d, temps, i)
  {
    seq(|temps|, i requires 0 <= i < |temps| => NextAt(p, d, temps, i))
  }

  method StepStackThermalND(tCell: array<real>, p: Plate, d: Drive) returns (tNew: array<real>, qRemoved: real)
    requires p.Valid()
    ensures fresh(tNew) && tNew[..] == Next(p, d, tCell[..])
    ensures qRemoved == Removed(p, d, tCell[..])
  {
    var n := tCell.Length;
    tNew := new real[n];
    var tCoolant := d.inlet;
    qRemoved := 0.0;
    ghost var temps := tCell[..];
    ghost var draws := Draws(p, d, temps);
    for i := 0 to n
      invariant temps == tCell[..]
      invariant tCoolant == Coolant(p, d, temps, i) && qRemoved == Sum(draws[..i])
      invariant forall k | 0 <= k < i :: tNew[k] == NextAt(p, d, temps, k)
    {
      var qCoolant := Drawn(p, tCell[i], tCoolant);
      qRemoved := qRemoved + qCoolant;
      assert draws[..i + 1][..i] == draws[..i];
      var left := if i > 0 then Conducted(p, tCell[i - 1], tCell[i]) else 0.0;
      var right := if i < n - 1 then Conducted(p, tCell[i + 1], tCell[i]) else 0.0;
      tNew[i] := Heated(p, d, tCell[i], d.heat + left + right - qCoolant);
      tCoolant := Warmed(p, d, tCoolant, qCoolant);
    }
    assert draws[..n] == draws;
  }

  // ----- energy

  lemma CellBalance(p: Plate, d: Drive, temps: seq<real>, i: nat)
    requires p.Valid() && i < |temps|
    ensures p.capacity * NextAt(p, d, temps, i) - p.capacity * temps[i] == d.dt * Net(p, d, temps, i)
  {
    var net := Net(p, d, temps, i);
    Quotient(net, p.capacity);
    Regroup(p.capacity, d.dt, net / p.capacity, net);
    Distribute(p.capacity, NextAt(p, d, temps, i), temps[i], d.dt * (net / p.capacity));
  }

  lemma Regroup(c: real, dt: real, q: real, net: real)
    requires q * c == net
    ensures c * (dt * q) == dt * net
  {
  }

  predicate Links(heat: real, flux: seq<real>, draws: seq<real>, nets: seq<real>, i: nat)
    requires |flux| == |nets| + 1 && |draws| == |nets| && i < |nets|
  {
    nets[i] == heat + flux[i + 1] - flux[i] - draws[i]
  }

  /** What flows into a cell and out of its neighbour cancels out in the sum. */
  lemma {:induction false} Telescope(heat: real, flux: seq<real>, draws: seq<real>, nets: seq<real>, k: nat)
    requires |flux| == |nets| + 1 && |draws| == |nets| && k <= |nets|
    requires forall i: nat | i < |nets| :: Links(heat, flux, draws, nets, i)
    ensures Sum(nets[..k]) == k as real * heat + flux[k] - flux[0] - Sum(draws[..k])
  {
    if k > 0 {
      Telescope(heat, flux, draws, nets, k - 1);
      assert Links(heat, flux, draws, nets, k - 1);
      assert nets[..k][..k - 1] == nets[..k - 1] && draws[..k][..k - 1] == draws[..k - 1];
      OneMore(k - 1, heat);
    }
  }

  function Nets(p: Plate, d: Drive, temps: seq<real>): (r: seq<real>)
    requires p.Valid()
    ensures |r| == |temps| && forall i | 0 <= i < |r| :: r[i] == Net(p, d, temps, i)
  {
    seq(|temps|, i requires 0 <= i < |temps| => Net(p, d, temps, i))
  }

  /** Heat conducted from cell i into cell i - 1; none at the two ends of the stack. */
  function Flux(p: Plate, temps: seq<real>, i: nat): real
    requires i <= |temps|
  {
    if i < |temps| then -FromLeft(p, temps, i) else 0.0
  }

  lemma NetIsFlux(p: Plate, d: Drive, temps: seq<real>, i: nat)
    requires p.Valid() && i < |temps|
    ensures Net(p, d, temps, i) == d.heat + Flux(p, temps, i + 1) - Flux(p, temps, i) - ToCoolant(p, d, temps, i)
  {
  }

  /** The heat that stays in the stack. */
  function Kept(p: Plate, d: Drive, temps: seq<real>): real
    requires p.Valid()
  {
    Sum(Nets(p, d, temps))
  }

  /** It is what is generated and not carried away by the coolant: conduction moves nothing in or out. */
  lemma KeptIsRest(p: Plate, d: Drive, temps: seq<real>)
    requires p.Valid()
    ensures Kept(p, d, temps) == |temps| as real * d.heat - Removed(p, d, temps)
  {
    var n := |temps|;
    var nets, draws := Nets(p, d, temps), Draws(p, d, temps);
    var flux := seq(n + 1, i requires 0 <= i <= n => Flux(p, temps, i));
    forall i: nat | i < n
      ensures Links(d.heat, flux, draws, nets, i)
    {
      NetIsFlux(p, d, temps, i);
    }
    Telescope(d.heat, flux, draws, nets, n);
    assert nets[..n] == nets && draws[..n] == draws && flux[0] == flux[n] == 0.0;
  }

  predicate GainAt(c: real, dt: real, a: seq<real>, b: seq<real>, nets: seq<real>, i: nat)
    requires |a| == |b| == |nets| && i < |a|
  {
    Product(c, b[i]) - Product(c, a[i]) == Product(dt, nets[i])
  }

  /** If c times every gain is dt times the net, the same holds of the sums. */
  lemma {:induction false} SumsBalance(c: real, dt: real, a: seq<real>, b: seq<real>, nets: seq<real>)
    requires |a| == |b| == |nets| && forall i: nat | i < |a| :: GainAt(c, dt, a, b, nets, i)
    ensures Product(c, Sum(b)) - Product(c, Sum(a)) == Product(dt, Sum(nets))
  {
    if a != [] {
      var k := |a| - 1;
      forall i: nat | i < k
        ensures GainAt(c, dt, a[..k], b[..k], nets[..k], i)
      {
        assert GainAt(c, dt, a, b, nets, i);
      }
      SumsBalance(c, dt, a[..k], b[..k], nets[..k]);
      assert GainAt(c, dt, a, b, nets, k);
      Distribute(c, Sum(a), Sum(a[..k]), a[k]);
      Distribute(c, Sum(b), Sum(b[..k]), b[k]);
      Distribute(dt, Sum(nets), Sum(nets[..k]), nets[k]);
    }
  }

  lemma CellsBalance(p: Plate, d: Drive, temps: seq<real>)
    requires p.Valid()
    ensures forall i: nat | i < |temps| :: GainAt(p.capacity, d.dt, temps, Next(p, d, temps), Nets(p, d, temps), i)
  {
    forall i: nat | i < |temps|
      ensures GainAt(p.capacity, d.dt, temps, Next(p, d, temps), Nets(p, d, temps), i)
    {
      CellBalance(p, d, temps, i);
    }
  }

  function Energy(p: Plate, temps: seq<real>): real {
    Product(p.capacity, Sum(temps))
  }

  /** The cells gain exactly the heat that is kept. */
  lemma EnergyBalance(p: Plate, d: Drive, temps: seq<real>)
    requires p.Valid()
    ensures Energy(p, Next(p, d, temps)) - Energy(p, temps) == Product(d.dt, Kept(p, d, temps))
  {
    CellsBalance(p, d, temps);
    SumsBalance(p.capacity, d.dt, temps, Next(p, d, temps), Nets(p, d, temps));
  }

  /** What the coolant gains on its way through the first k cells is what they hand to it; a trickle gains nothing. */
  lemma {:induction false} CoolantGains(p: Plate, d: Drive, temps: seq<real>, k: nat)
    requires p.Valid() && k <= |temps|
    ensures if d.flow > 0.000001 then Product(d.flow * p.cpCoolant, Coolant(p, d, temps, k) - d.inlet) == Sum(Draws(p, d, temps)[..k])
            else Coolant(p, d, temps, k) == d.inlet
  {
    if k > 0 {
      CoolantGains(p, d, temps, k - 1);
      var q, before, after := ToCoolant(p, d, temps, k - 1), Coolant(p, d, temps, k - 1), Coolant(p, d, temps, k);
      assert Draws(p, d, temps)[..k][..k - 1] == Draws(p, d, temps)[..k - 1];
      if d.flow > FLOW_MIN {
        ScaleLt(d.flow, 0.0, p.cpCoolant);
        Quotient(q, d.flow * p.cpCoolant);
        Distribute(d.flow * p.cpCoolant, after - d.inlet, before - d.inlet, q / (d.flow * p.cpCoolant));
      }
    }
  }

  /** Cells and coolant together gain exactly the heat that is generated, whatever the temperatures. */
  lemma HeatIsConserved(p: Plate, d: Drive, temps: seq<real>)
    requires p.Valid() && d.flow > FLOW_MIN
    ensures Energy(p, Next(p, d, temps)) - Energy(p, temps)
            + Product(d.dt, Product(d.flow * p.cpCoolant, Coolant(p, d, temps, |temps|) - d.inlet))
         == Product(d.dt, |temps| as real * d.heat)
  {
    EnergyBalance(p, d, temps);
    KeptIsRest(p, d, temps);
    CoolantTakesAll(p, d, temps);
    TakenTogether(d.dt, Energy(p, Next(p, d, temps)) - Energy(p, temps), Kept(p, d, temps),
                  Product(d.flow * p.cpCoolant, Coolant(p, d, temps, |temps|) - d.inlet), |temps| as real * d.heat);
  }

  lemma CoolantTakesAll(p: Plate, d: Drive, temps: seq<real>)
    requires p.Valid() && d.flow > FLOW_MIN
    ensures Product(d.flow * p.cpCoolant, Coolant(p, d, temps, |temps|) - d.inlet) == Removed(p, d, temps)
  {
    CoolantGains(p, d, temps, |temps|);
    assert Draws(p, d, temps)[..|temps|] == Draws(p, d, temps);
  }

  lemma TakenTogether(dt: real, gain: real, kept: real, removed: real, total: real)
    requires gain == Product(dt, kept) && kept == total - removed
    ensures gain + Product(dt, removed) == Product(dt, total)
  {
  }

  // ----- the hull

  /** How many neighbours the best connected cell has, times the coupling to one of them, plus the coolant's. */
  function Coupling(p: Plate, n: nat): real {
    (if n <= 1 then 0.0 else if n == 2 then 1.0 else 2.0) * p.hAInter + p.hAExt
  }

  /** The step is short enough for the cells, and a cell cannot warm the coolant beyond itself. */
  predicate Stable(p: Plate, n: nat, flow: real, dt: real) {
    dt * Coupling(p, n) <= p.capacity && (flow <= FLOW_MIN || p.hAExt <= flow * p.cpCoolant)
  }

  predicate AllAbove(lo: real, a: seq<real>) {
    forall i | 0 <= i < |a| :: lo <= a[i]
  }

  predicate AllBelow(a: seq<real>, hi: real) {
    forall i | 0 <= i < |a| :: a[i] <= hi
  }

  /** A value that loses at most k * x / c per unit of dt does not drop by more than x. */
  lemma NoOvershoot(c: real, dt: real, k: real, x: real, net: real, gain: real)
    requires c > 0.0 && dt >= 0.0 && x >= 0.0 && dt * k <= c && c * gain == dt * net && -net <= k * x
    ensures -gain <= x
  {
    ScaleLe(dt, -net, k * x);
    assert dt * (k * x) == (dt * k) * x;
    ScaleLe(x, dt * k, c);
    Cancel(-gain, x, c);
  }

  lemma CoolantAbove(p: Plate, d: Drive, temps: seq<real>, lo: real, i: nat)
    requires p.Valid() && i <= |temps| && (d.flow <= FLOW_MIN || p.hAExt <= d.flow * p.cpCoolant)
    requires lo <= d.inlet && AllAbove(lo, temps)
    ensures lo <= Coolant(p, d, temps, i)
  {
    if i > 0 {
      CoolantAbove(p, d, temps, lo, i - 1);
      WarmedAbove(p, d, temps[i - 1], Coolant(p, d, temps, i - 1), lo);
    }
  }

  lemma WarmedAbove(p: Plate, d: Drive, t: real, c: real, lo: real)
    requires p.Valid() && (d.flow <= FLOW_MIN || p.hAExt <= d.flow * p.cpCoolant) && lo <= t && lo <= c
    ensures lo <= Warmed(p, d, c, Drawn(p, t, c))
  {
    if d.flow > FLOW_MIN {
      var f, q := d.flow * p.cpCoolant, Drawn(p, t, c);
      Quotient(q, f);
      DrawnWithin(p, t, c, c - lo);
      NoOvershoot(f, 1.0, p.hAExt, c - lo, q, q / f);
    }
  }

  lemma CoolantBelow(p: Plate, d: Drive, temps: seq<real>, hi: real, i: nat)
    requires p.Valid() && i <= |temps| && (d.flow <= FLOW_MIN || p.hAExt <= d.flow * p.cpCoolant)
    requires d.inlet <= hi && AllBelow(temps, hi)
    ensures Coolant(p, d, temps, i) <= hi
  {
    if i > 0 {
      CoolantBelow(p, d, temps, hi, i - 1);
      WarmedBelow(p, d, temps[i - 1], Coolant(p, d, temps, i - 1), hi);
    }
  }

  lemma WarmedBelow(p: Plate, d: Drive, t: real, c: real, hi: real)
    requires p.Valid() && (d.flow <= FLOW_MIN || p.hAExt <= d.flow * p.cpCoolant) && t <= hi && c <= hi
    ensures Warmed(p, d, c, Drawn(p, t, c)) <= hi
  {
    if d.flow > FLOW_MIN {
      var f, q := d.flow * p.cpCoolant, Drawn(p, t, c);
      Quotient(q, f);
      DrawnWithin(p, t, c, hi - c);
      NoOvershoot(f, 1.0, p.hAExt, hi - c, -q, -(q / f));
    }
  }

  /** The loss of a cell to its neighbours and the coolant, when each of them is at most x below it. */
  function MostLoss(p: Plate, n: nat, x: real): real {
    Coupling(p, n) * x
  }

  /** What one cell gains, from its own temperature and those around it. */
  function Gain(p: Plate, n: nat, i: nat, t: real, l: real, r: real, c: real): real {
    (if i > 0 then Conducted(p, l, t) else 0.0) + (if i < n - 1 then Conducted(p, r, t) else 0.0) - Drawn(p, t, c)
  }

  lemma ConductedWithin(p: Plate, source: real, target: real, x: real)
    requires p.Valid()
    ensures target - source <= x ==> -Conducted(p, source, target) <= p.hAInter * x
    ensures source - target <= x ==> Conducted(p, source, target) <= p.hAInter * x
  {
    if target - source <= x {
      ScaleLe(p.hAInter, target - source, x);
    }
    if source - target <= x {
      ScaleLe(p.hAInter, source - target, x);
    }
  }

  lemma DrawnWithin(p: Plate, t: real, c: real, x: real)
    requires p.Valid()
    ensures t - c <= x ==> Drawn(p, t, c) <= p.hAExt * x
    ensures c - t <= x ==> -Drawn(p, t, c) <= p.hAExt * x
  {
    if t - c <= x {
      ScaleLe(p.hAExt, t - c, x);
    }
    if c - t <= x {
      ScaleLe(p.hAExt, c - t, x);
    }
  }

  lemma LossWithin(p: Plate, n: nat, i: nat, left: real, right: real, ext: real, x: real)
    requires p.Valid() && i < n && x >= 0.0 && ext <= p.hAExt * x && left <= p.hAInter * x && right <= p.hAInter * x
    ensures (if i > 0 then left else 0.0) + (if i < n - 1 then right else 0.0) + ext <= MostLoss(p, n, x)
  {
    ScaleLe(p.hAInter, 0.0, x);
  }

  /** None of a cell's surroundings is more than x below it, or above it. */
  predicate NoneLower(t: real, l: real, r: real, c: real, x: real) {
    t - l <= x && t - r <= x && t - c <= x
  }

  predicate NoneHigher(t: real, l: real, r: real, c: real, x: real) {
    l - t <= x && r - t <= x && c - t <= x
  }

  lemma GainWithin(p: Plate, n: nat, i: nat, t: real, l: real, r: real, c: real, x: real)
    requires p.Valid() && i < n && x >= 0.0
    ensures NoneLower(t, l, r, c, x) ==> -Gain(p, n, i, t, l, r, c) <= MostLoss(p, n, x)
    ensures NoneHigher(t, l, r, c, x) ==> Gain(p, n, i, t, l, r, c) <= MostLoss(p, n, x)
  {
    ConductedWithin(p, l, t, x);
    ConductedWithin(p, r, t, x);
    DrawnWithin(p, t, c, x);
    var left, right, ext := Conducted(p, l, t), Conducted(p, r, t), Drawn(p, t, c);
    if NoneLower(t, l, r, c, x) {
      LossWithin(p, n, i, -left, -right, ext, x);
    }
    if NoneHigher(t, l, r, c, x) {
      LossWithin(p, n, i, left, right, -ext, x);
    }
  }

  /** A cell's neighbours; at the ends of the stack the cell itself stands in. */
  function Left(temps: seq<real>, i: nat): real
    requires i < |temps|
  {
    temps[if i > 0 then i - 1 else i]
  }

  function Right(temps: seq<real>, i: nat): real
    requires i < |temps|
  {
    temps[if i < |temps| - 1 then i + 1 else i]
  }

  lemma NetIsGain(p: Plate, d: Drive, temps: seq<real>, i: nat)
    requires p.Valid() && i < |temps|
    ensures Net(p, d, temps, i)
            == d.heat + Gain(p, |temps|, i, temps[i], Left(temps, i), Right(temps, i), Coolant(p, d, temps, i))
  {
  }

  lemma CellStaysWithin(p: Plate, d: Drive, temps: seq<real>, i: nat, x: real)
    requires p.Valid() && i < |temps| && d.dt >= 0.0 && Stable(p, |temps|, d.flow, d.dt) && x >= 0.0
    ensures (d.heat >= 0.0 && NoneLower(temps[i], Left(temps, i), Right(temps, i), Coolant(p, d, temps, i), x))
            ==> temps[i] - x <= NextAt(p, d, temps, i)
    ensures (d.heat <= 0.0 && NoneHigher(temps[i], Left(temps, i), Right(temps, i), Coolant(p, d, temps, i), x))
            ==> NextAt(p, d, temps, i) <= temps[i] + x
  {
    NetIsGain(p, d, temps, i);
    GainWithin(p, |temps|, i, temps[i], Left(temps, i), Right(temps, i), Coolant(p, d, temps, i), x);
    CellMoves(p, d, temps[i], Net(p, d, temps, i), |temps|, x);
  }

  lemma CellMoves(p: Plate, d: Drive, t: real, net: real, n: nat, x: real)
    requires p.Valid() && d.dt >= 0.0 && Stable(p, n, d.flow, d.dt) && x >= 0.0
    ensures -net <= MostLoss(p, n, x) ==> t - x <= Heated(p, d, t, net)
    ensures net <= MostLoss(p, n, x) ==> Heated(p, d, t, net) <= t + x
  {
    var gain := d.dt * (net / p.capacity);
    Quotient(net, p.capacity);
    Regroup(p.capacity, d.dt, net / p.capacity, net);
    if -net <= MostLoss(p, n, x) {
      NoOvershoot(p.capacity, d.dt, Coupling(p, n), x, net, gain);
    }
    if net <= MostLoss(p, n, x) {
      NoOvershoot(p.capacity, d.dt, Coupling(p, n), x, -net, -gain);
    }
  }

  /** Heating never breaks the lower bound. */
  lemma StaysAbove(p: Plate, d: Drive, temps: seq<real>, lo: real)
    requires p.Valid() && d.dt >= 0.0 && Stable(p, |temps|, d.flow, d.dt) && d.heat >= 0.0
    requires lo <= d.inlet && AllAbove(lo, temps)
    ensures AllAbove(lo, Next(p, d, temps))
  {
    forall i | 0 <= i < |temps|
      ensures lo <= NextAt(p, d, temps, i)
    {
      CoolantAbove(p, d, temps, lo, i);
      CellStaysWithin(p, d, temps, i, temps[i] - lo);
    }
  }

  lemma StaysBelow(p: Plate, d: Drive, temps: seq<real>, hi: real)
    requires p.Valid() && d.dt >= 0.0 && Stable(p, |temps|, d.flow, d.dt) && d.heat <= 0.0
    requires d.inlet <= hi && AllBelow(temps, hi)
    ensures AllBelow(Next(p, d, temps), hi)
  {
    forall i | 0 <= i < |temps|
      ensures NextAt(p, d, temps, i) <= hi
    {
      CoolantBelow(p, d, temps, hi, i);
      CellStaysWithin(p, d, temps, i, hi - temps[i]);
    }
  }

  /** One unheated step keeps the cells, and the coolant all the way to the outlet, inside the hull of the cells and
      the inlet. */
  ghost predicate KeepsHull(p: Plate, n: nat, flow: real, dt: real)
    requires p.Valid()
  {
    forall inlet: real, temps: seq<real>, lo: real, hi: real |
      |temps| == n && AllAbove(lo, [inlet] + temps) && AllBelow([inlet] + temps, hi) ::
      InHull(p, Drive(0.0, inlet, flow, dt), temps, lo, hi)
  }

  ghost predicate InHull(p: Plate, d: Drive, temps: seq<real>, lo: real, hi: real)
    requires p.Valid()
  {
    AllAbove(lo, Next(p, d, temps)) && AllBelow(Next(p, d, temps), hi)
    && forall i: nat | i <= |temps| :: lo <= Coolant(p, d, temps, i) <= hi
  }

  lemma StableKeepsHull(p: Plate, d: Drive, temps: seq<real>, lo: real, hi: real)
    requires p.Valid() && d.dt >= 0.0 && Stable(p, |temps|, d.flow, d.dt) && d.heat == 0.0
    requires lo <= d.inlet <= hi && AllAbove(lo, temps) && AllBelow(temps, hi)
    ensures InHull(p, d, temps, lo, hi)
  {
    StaysAbove(p, d, temps, lo);
    StaysBelow(p, d, temps, hi);
    forall i: nat | i <= |temps|
      ensures lo <= Coolant(p, d, temps, i) <= hi
    {
      CoolantAbove(p, d, temps, lo, i);
      CoolantBelow(p, d, temps, hi, i);
    }
  }

  /** One hot cell in a stack at zero. */
  function OneHot(n: nat, k: nat): (r: seq<real>)
    ensures |r| == n && AllAbove(0.0, r) && AllBelow(r, 1.0)
  {
    seq(n, i => if i == k then 1.0 else 0.0)
  }

  lemma NoStepTooLong(p: Plate, n: nat, flow: real, dt: real)
    requires p.Valid() && n > 0 && KeepsHull(p, n, flow, dt)
    ensures dt * Coupling(p, n) <= p.capacity
  {
    var k := if n == 1 then 0 else 1;
    var d, temps := Drive(0.0, 0.0, flow, dt), OneHot(n, k);
    assert InHull(p, d, temps, 0.0, 1.0);
    assert Coolant(p, d, temps, k) == 0.0 by {
      if k == 1 {
        assert Coolant(p, d, temps, 0) == 0.0;
        if flow > FLOW_MIN {
          Quotient(0.0, flow * p.cpCoolant);
        }
      }
    }
    HotCellNet(p, d, n, k);
    CellBalance(p, d, temps, k);
    assert Next(p, d, temps)[k] >= 0.0;
    LostAtMost(p.capacity, NextAt(p, d, temps, k), dt, Coupling(p, n));
  }

  lemma HotCellNet(p: Plate, d: Drive, n: nat, k: nat)
    requires p.Valid() && n > 0 && d.heat == 0.0 && k == (if n == 1 then 0 else 1) && Coolant(p, d, OneHot(n, k), k) == 0.0
    ensures Net(p, d, OneHot(n, k), k) == -Coupling(p, n)
  {
  }

  lemma LostAtMost(c: real, t: real, dt: real, k: real)
    requires c > 0.0 && t >= 0.0 && c * t - c == dt * -k
    ensures dt * k <= c
  {
    ScaleLe(c, 0.0, t);
  }

  lemma CoolantNeverOvershoots(p: Plate, n: nat, flow: real, dt: real)
    requires p.Valid() && n > 0 && KeepsHull(p, n, flow, dt)
    ensures flow <= FLOW_MIN || p.hAExt <= flow * p.cpCoolant
  {
    var d, temps := Drive(0.0, 0.0, flow, dt), OneHot(n, 0);
    assert InHull(p, d, temps, 0.0, 1.0);
    if flow > FLOW_MIN {
      AfterHotCell(p, d, n);
      assert Coolant(p, d, temps, 1) <= 1.0;
    }
  }

  lemma AfterHotCell(p: Plate, d: Drive, n: nat)
    requires p.Valid() && n > 0 && d.inlet == 0.0 && d.flow > FLOW_MIN
    ensures Coolant(p, d, OneHot(n, 0), 1) <= 1.0 ==> p.hAExt <= d.flow * p.cpCoolant
  {
    var f := d.flow * p.cpCoolant;
    ScaleLt(d.flow, 0.0, p.cpCoolant);
    assert Coolant(p, d, OneHot(n, 0), 0) == 0.0;
    assert ToCoolant(p, d, OneHot(n, 0), 0) == p.hAExt;
    assert Coolant(p, d, OneHot(n, 0), 1) == p.hAExt / f;
    NotAbove(p.hAExt, f);
  }

  lemma NotAbove(h: real, f: real)
    requires f > 0.0
    ensures h / f <= 1.0 ==> h <= f
  {
    Quotient(h, f);
    if h / f <= 1.0 {
      ScaleLe(f, h / f, 1.0);
    }
  }

  /** The stability condition is exact for every number of cells. */
  lemma KeepsHullIff(p: Plate, n: nat, flow: real, dt: real)
    requires p.Valid() && n > 0 && dt >= 0.0
    ensures KeepsHull(p, n, flow, dt) <==> Stable(p, n, flow, dt)
  {
    if KeepsHull(p, n, flow, dt) {
      NoStepTooLong(p, n, flow, dt);
      CoolantNeverOvershoots(p, n, flow, dt);
    }
    if Stable(p, n, flow, dt) {
      forall inlet: real, temps: seq<real>, lo: real, hi: real |
        |temps| == n && AllAbove(lo, [inlet] + temps) && AllBelow([inlet] + temps, hi)
        ensures InHull(p, Drive(0.0, inlet, flow, dt), temps, lo, hi)
      {
        HullOf(inlet, temps, lo, hi);
        StableKeepsHull(p, Drive(0.0, inlet, flow, dt), temps, lo, hi);
      }
    }
  }

  lemma HullOf(inlet: real, temps: seq<real>, lo: real, hi: real)
    requires AllAbove(lo, [inlet] + temps) && AllBelow([inlet] + temps, hi)
    ensures lo <= inlet <= hi && AllAbove(lo, temps) && AllBelow(temps, hi)
  {
    var all := [inlet] + temps;
    assert all[0] == inlet;
    assert forall i | 0 <= i < |temps| :: temps[i] == all[i + 1];
  }

  // ----- whole runs

  /** The temperatures before and after each step. */
  predicate IsRun(p: Plate, drives: seq<Drive>, temps: seq<seq<real>>)
    requires p.Valid()
  {
    |temps| == |drives| + 1 && forall k: nat | k < |drives| :: StepOf(p, drives, temps, k)
  }

  predicate StepOf(p: Plate, drives: seq<Drive>, temps: seq<seq<real>>, k: nat)
    requires p.Valid() && |temps| == |drives| + 1 && k < |drives|
  {
    temps[k + 1] == Next(p, drives[k], temps[k])
  }

  predicate Heats(p: Plate, n: nat, lo: real, d: Drive) {
    d.dt >= 0.0 && Stable(p, n, d.flow, d.dt) && d.heat >= 0.0 && lo <= d.inlet
  }

  predicate Idles(p: Plate, n: nat, lo: real, hi: real, d: Drive) {
    d.dt >= 0.0 && Stable(p, n, d.flow, d.dt) && d.heat == 0.0 && lo <= d.inlet <= hi
  }

  /** A heated stack never gets colder than its coldest start and coldest inlet. */
  lemma {:induction false} RunStaysAbove(p: Plate, drives: seq<Drive>, temps: seq<seq<real>>, lo: real, k: nat)
    requires p.Valid() && IsRun(p, drives, temps) && k <= |drives| && AllAbove(lo, temps[0])
    requires forall i | 0 <= i < |drives| :: Heats(p, |temps[0]|, lo, drives[i])
    ensures |temps[k]| == |temps[0]| && AllAbove(lo, temps[k])
  {
    if k > 0 {
      RunStaysAbove(p, drives, temps, lo, k - 1);
      assert StepOf(p, drives, temps, k - 1);
      StaysAbove(p, drives[k - 1], temps[k - 1], lo);
    }
  }

  /** An unheated stack and its coolant stay in the hull of the first temperatures and the inlets. */
  lemma {:induction false} RunStaysInHull(p: Plate, drives: seq<Drive>, temps: seq<seq<real>>, lo: real, hi: real, k: nat)
    requires p.Valid() && IsRun(p, drives, temps) && k <= |drives| && AllAbove(lo, temps[0]) && AllBelow(temps[0], hi)
    requires forall i | 0 <= i < |drives| :: Idles(p, |temps[0]|, lo, hi, drives[i])
    ensures |temps[k]| == |temps[0]| && AllAbove(lo, temps[k]) && AllBelow(temps[k], hi)
    ensures k < |drives| ==> InHull(p, drives[k], temps[k], lo, hi)
  {
    if k > 0 {
      RunStaysInHull(p, drives, temps, lo, hi, k - 1);
      assert StepOf(p, drives, temps, k - 1);
    }
    if k < |drives| {
      StableKeepsHull(p, drives[k], temps[k], lo, hi);
    }
  }

  /** The energy kept in each step. */
  function KeptEach(p: Plate, drives: seq<Drive>, temps: seq<seq<real>>): (r: seq<real>)
    requires p.Valid() && |temps| == |drives| + 1
    ensures |r| == |drives|
  {
    seq(|drives|, k requires 0 <= k < |drives| => Product(drives[k].dt, Kept(p, drives[k], temps[k])))
  }

  lemma StepBalance(p: Plate, drives: seq<Drive>, temps: seq<seq<real>>, k: nat)
    requires p.Valid() && |temps| == |drives| + 1 && k < |drives| && StepOf(p, drives, temps, k)
    ensures Energy(p, temps[k + 1]) - Energy(p, temps[k]) == KeptEach(p, drives, temps)[k]
  {
    EnergyBalance(p, drives[k], temps[k]);
  }

  lemma {:induction false} RunBalance(p: Plate, drives: seq<Drive>, temps: seq<seq<real>>, k: nat)
    requires p.Valid() && IsRun(p, drives, temps) && k <= |drives|
    ensures Energy(p, temps[k]) - Energy(p, temps[0]) == Sum(KeptEach(p, drives, temps)[..k])
  {
    if k > 0 {
      RunBalance(p, drives, temps, k - 1);
      assert StepOf(p, drives, temps, k - 1);
      StepBalance(p, drives, temps, k - 1);
      assert KeptEach(p, drives, temps)[..k][..k - 1] == KeptEach(p, drives, temps)[..k - 1];
    }
  }

  // ----- the model object

  /** The model's heat is split evenly over the cells, so the stack keeps all of it but `_last_Q_output`. */
  lemma KeptOfTotal(p: Plate, d: Drive, temps: seq<real>, total: real)
    requires p.Valid() && temps != [] && d.heat == total / |temps| as real
    ensures Kept(p, d, temps) == total - Removed(p, d, temps)
  {
    KeptIsRest(p, d, temps);
    Quotient(total, |temps| as real);
  }

  class StackThermalModelND {
    const nCells: nat
    const tInitial: real
    const plate: Plate
    var tCell: array<real>
    var lastQOutput: real

    constructor (nCells: nat, tInitial: real, plate: Plate)
      ensures this.nCells == nCells && this.tInitial == tInitial && this.plate == plate
      ensures fresh(tCell) && tCell[..] == seq(nCells, i => tInitial) && lastQOutput == 0.0
    {
      this.nCells, this.tInitial, this.plate, lastQOutput := nCells, tInitial, plate, 0.0;
      tCell := new real[nCells](i => tInitial);
    }

    method Step(dt: real, qGenTotal: real, inlet: real, flow: real)
      requires nCells > 0 && plate.Valid() && tCell.Length == nCells
      modifies this
      ensures fresh(tCell) && tCell.Length == nCells
      ensures var d, temps := DriveOf(dt, qGenTotal, inlet, flow), old(tCell[..]);
        tCell[..] == Next(plate, d, temps) && lastQOutput == Removed(plate, d, temps)
    {
      tCell, lastQOutput := StepStackThermalND(tCell, plate, DriveOf(dt, qGenTotal, inlet, flow));
    }

    function DriveOf(dt: real, qGenTotal: real, inlet: real, flow: real): Drive
      requires nCells > 0
    {
      Drive(qGenTotal / nCells as real, inlet, flow, dt)
    }

    method Reset()
      modifies this
      ensures fresh(tCell) && tCell[..] == seq(nCells, i => tInitial) && lastQOutput == 0.0
    {
      tCell := new real[nCells](i => tInitial);
      lastQOutput := 0.0;
    }
  }
}
