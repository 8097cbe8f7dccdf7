/** Power dispatch over the SOEC modules (`simulate_soec_step_jit`). */
module SoecDispatch {
  import opened Wrappers
  import opened RealAlgebra

  const TOLERANCE: real := 0.005
  const STATIONARY_BAND: real := 0.01
  const NEAR_WHOLE: real := 0.001

  const STANDBY: int := 1
  const RAMP_UP: int := 2
  const STATIONARY: int := 3
  const OPTIMAL: int := 4
  const RAMP_DOWN: int := 5

  datatype Config = Config(maxLimit: real, standby: real, firstStep: real, ramp: real, minTotal: real)
  {
    /** What the plant's configuration guarantees. */
    predicate Valid() {
      standby < firstStep <= maxLimit && 0.0 < maxLimit && 0.0 <= ramp
    }

    /** No positive minimum is taken off the reference (see LimitsWithinIff). */
    predicate Safe() {
      Valid() && minTotal <= 0.0
    }
  }

  /** One entry per module. */
  datatype Plant = Plant(powers: seq<real>, states: seq<int>, limits: seq<real>)
  {
    predicate Valid() {
      |powers| == |states| == |limits|
    }
  }

  // ----- how many modules the reference needs

  /** The reference in units of one module. */
  function Broken(c: Config, reference: real): real
    requires c.maxLimit > 0.0
  {
    Largest(0.0, reference - c.minTotal) / c.maxLimit
  }

  function Ceil(x: real): int {
    if x == x.Floor as real then x.Floor else x.Floor + 1
  }

  /** The reference is a hair below a whole number of modules, or exactly at one. */
  predicate NearWhole(x: real) {
    x > 0.01 && AbsReal(x - Ceil(x) as real) < NEAR_WHOLE
  }

  /** The number of the module that takes the rest, counted from 1; one past the last when all run in full. */
  function TargetModule(c: Config, reference: real, n: nat): int
    requires c.maxLimit > 0.0
  {
    var x := Broken(c, reference);
    var id := if NearWhole(x) then Ceil(x) + 1 else Ceil(x);
    var capped := if n + 1 < id then n + 1 else id;
    if capped < 1 then 1 else capped
  }

  function TargetIndex(c: Config, reference: real, n: nat): (r: nat)
    requires c.maxLimit > 0.0
    ensures r <= n
  {
    TargetModule(c, reference, n) - 1
  }

  /** What the target module gets, before it is lifted to the standby power. */
  function Rest(c: Config, reference: real): real
    requires c.maxLimit > 0.0
  {
    var rest := reference - c.maxLimit * Broken(c, reference).Floor as real;
    if c.standby + TOLERANCE < rest < c.firstStep - TOLERANCE then c.standby else rest
  }

  predicate IsStationary(reference: real, powers: seq<real>) {
    AbsReal(reference - Sum(powers)) < STATIONARY_BAND
  }

  predicate RampsUp(reference: real, powers: seq<real>) {
    reference - Sum(powers) > 0.0
  }

  /** Ramping down indexes the limits with the target unchecked. */
  predicate Overruns(c: Config, reference: real, powers: seq<real>)
    requires c.maxLimit > 0.0
  {
    !IsStationary(reference, powers) && !RampsUp(reference, powers) && AbsReal(reference - c.minTotal) >= STATIONARY_BAND
    && TargetIndex(c, reference, |powers|) >= |powers|
  }

  /** The new limit of the i-th module. */
  function LimitAt(c: Config, reference: real, powers: seq<real>, i: nat): real
    requires c.maxLimit > 0.0
  {
    var target := TargetIndex(c, reference, |powers|);
    if !RampsUp(reference, powers) && AbsReal(reference - c.minTotal) < STATIONARY_BAND then c.standby
    else if i < target then c.maxLimit
    else if i == target then Largest(c.standby, Rest(c, reference))
    else c.standby
  }

  // ----- one module

  predicate Starts(c: Config, limit: real, power: real) {
    AbsReal(power - c.standby) < TOLERANCE && limit - power > TOLERANCE
  }

  function Movement(c: Config, limit: real, power: real): real {
    var d := limit - power;
    Least(AbsReal(d), c.ramp) * (if d >= 0.0 then 1.0 else -1.0)
  }

  function Moved(c: Config, limit: real, power: real): real {
    if Starts(c, limit, power) then c.firstStep else power + Movement(c, limit, power)
  }

  function ShutDown(c: Config, power: real): real {
    if c.standby + TOLERANCE < power < c.firstStep - TOLERANCE then c.standby else power
  }

  function HotFloor(c: Config, power: real): real {
    if power <= c.standby + TOLERANCE then c.standby else power
  }

  function PowerAfter(c: Config, limit: real, power: real): real {
    HotFloor(c, ShutDown(c, Moved(c, limit, power)))
  }

  function StateAfter(c: Config, limit: real, power: real): int {
    var p := PowerAfter(c, limit, power);
    if AbsReal(p - c.standby) < TOLERANCE then STANDBY
    else if AbsReal(p - c.maxLimit) < TOLERANCE then OPTIMAL
    else if AbsReal(p - limit) < TOLERANCE then STATIONARY
    else if limit - power > 0.0 then RAMP_UP
    else RAMP_DOWN
  }

  /** In the stationary band only the states settle. */
  function SettledState(c: Config, state: int, power: real): int {
    var s := if state == STATIONARY && AbsReal(power - c.maxLimit) < TOLERANCE then OPTIMAL else state;
    if s == RAMP_UP || s == RAMP_DOWN then STATIONARY else s
  }

  /** A module runs at standby or produces: nothing in between. */
  predicate OnGrid(c: Config, power: real) {
    power == c.standby || power >= c.firstStep - TOLERANCE
  }

  /** What one dispatch does to one module. */
  lemma ModuleStep(c: Config, limit: real, power: real)
    requires c.Valid() && power <= c.maxLimit && limit <= c.maxLimit
    ensures OnGrid(c, PowerAfter(c, limit, power)) && PowerAfter(c, limit, power) <= c.maxLimit
    ensures Starts(c, limit, power) || PowerAfter(c, limit, power) == c.standby
            || AbsReal(PowerAfter(c, limit, power) - power) <= c.ramp
  {
  }

  /** A moving module never passes its limit. */
  lemma ModuleTowardsLimit(c: Config, limit: real, power: real)
    requires c.Valid() && !Starts(c, limit, power) && PowerAfter(c, limit, power) != c.standby
    ensures power <= limit ==> power <= PowerAfter(c, limit, power) <= limit
    ensures limit <= power ==> limit <= PowerAfter(c, limit, power) <= power
    ensures AbsReal(limit - power) <= c.ramp <==> PowerAfter(c, limit, power) == limit
  {
  }

  /** The standby state means the standby power, once the two powers are two tolerances apart. */
  lemma StandbyStateIff(c: Config, limit: real, power: real)
    requires c.standby + 2.0 * TOLERANCE <= c.firstStep
    ensures StateAfter(c, limit, power) == STANDBY <==> PowerAfter(c, limit, power) == c.standby
  {
  }

  /** What the states say of the power: at its limit, at its maximum, or a full ramp away from where it was. */
  lemma StatesTellThePower(c: Config, limit: real, power: real)
    requires c.Valid()
    ensures var p, state := PowerAfter(c, limit, power), StateAfter(c, limit, power);
      && (state == OPTIMAL ==> AbsReal(p - c.maxLimit) < TOLERANCE)
      && (state == STATIONARY ==> AbsReal(p - limit) < TOLERANCE)
      && (state == RAMP_UP ==> Starts(c, limit, power) || (p == power + c.ramp && p + TOLERANCE <= limit))
      && (state == RAMP_DOWN ==> p == power - c.ramp && limit + TOLERANCE <= p)
  {
  }

  /** The fastest a module may rise: the ramp, or the start. */
  function MostRise(c: Config): real {
    Largest(c.ramp, c.firstStep - c.standby + TOLERANCE)
  }

  /** A module is never sent above its limit, where it was and the first step. It rises faster than ramp and start allow
      only if it was that far below standby. A start ends at exactly the first step, unless that is within the tolerance
      of standby: then it never leaves standby. */
  predicate ModeratesMove(c: Config, limit: real, before: real, after: real) {
    && after <= Largest(limit, Largest(before, c.firstStep))
    && (after - before <= MostRise(c) <==> c.standby - before <= MostRise(c))
    && (Starts(c, limit, before) ==> after == if c.firstStep > c.standby + TOLERANCE then c.firstStep else c.standby)
  }

  lemma ModuleIsModerate(c: Config, limit: real, power: real)
    requires c.Valid()
    ensures ModeratesMove(c, limit, power, PowerAfter(c, limit, power))
  {
    if Starts(c, limit, power) {
      assert Moved(c, limit, power) == c.firstStep;
    } else {
      MovementIs(c, limit, power);
    }
  }

  lemma MovementIs(c: Config, limit: real, power: real)
    requires c.ramp >= 0.0
    ensures Movement(c, limit, power) == if limit >= power then Least(limit - power, c.ramp) else -Least(power - limit, c.ramp)
  {
  }

  /** Which modules settle as what. */
  lemma SettledStateIff(c: Config, state: int, power: real)
    ensures var settled := SettledState(c, state, power);
      && settled != RAMP_UP && settled != RAMP_DOWN
      && (settled == OPTIMAL <==> state == OPTIMAL || (state == STATIONARY && AbsReal(power - c.maxLimit) < TOLERANCE))
      && (settled != state <==> state == RAMP_UP || state == RAMP_DOWN
                                || (state == STATIONARY && AbsReal(power - c.maxLimit) < TOLERANCE))
  {
  }

  // ----- the limits

  lemma RestOfDivision(x: real, u: real)
    requires u > 0.0 && x >= 0.0
    ensures 0.0 <= x - u * (x / u).Floor as real < u
  {
    var q := x / u;
    Quotient(x, u);
    ScaleLe(u, q.Floor as real, q);
    ScaleLt(u, q, q.Floor as real + 1.0);
  }

  /** No module is asked for more than its maximum. */
  lemma LimitWithin(c: Config, reference: real, powers: seq<real>, i: nat)
    requires c.Safe()
    ensures LimitAt(c, reference, powers, i) <= c.maxLimit
  {
    if reference >= c.minTotal {
      RestOfDivision(reference - c.minTotal, c.maxLimit);
    } else {
      assert Broken(c, reference) == 0.0;
    }
  }

  ghost predicate LimitsWithin(c: Config)
    requires c.maxLimit > 0.0
  {
    forall reference: real, powers: seq<real>, i: nat | i < |powers| :: LimitAt(c, reference, powers, i) <= c.maxLimit
  }

  /** The modules' maximum is respected exactly without a positive plant minimum: the minimum lowers the number of full
      modules, but is not taken off what the target module has to bring. */
  lemma LimitsWithinIff(c: Config)
    requires c.Valid()
    ensures LimitsWithin(c) <==> c.minTotal <= 0.0
  {
    if c.minTotal <= 0.0 {
      forall reference: real, powers: seq<real>, i: nat | i < |powers|
        ensures LimitAt(c, reference, powers, i) <= c.maxLimit
      {
        LimitWithin(c, reference, powers, i);
      }
    } else {
      var gap := Least(0.5 * c.minTotal, 0.0005 * c.maxLimit);
      var reference := c.minTotal + c.maxLimit - gap;
      JustBelowOne(c.maxLimit, gap);
      assert Broken(c, reference) == (c.maxLimit - gap) / c.maxLimit;
      assert Sum([0.0, 0.0]) == 0.0 by { SumOfEqual([0.0, 0.0], 0.0); }
      assert TargetIndex(c, reference, 2) == 1 && RampsUp(reference, [0.0, 0.0]);
      assert LimitAt(c, reference, [0.0, 0.0], 1) > c.maxLimit;
    }
  }

  lemma JustBelowOne(u: real, gap: real)
    requires 0.0 < gap <= 0.0005 * u
    ensures 0.999 < (u - gap) / u < 1.0
  {
    var x := (u - gap) / u;
    Quotient(u - gap, u);
    CancelLt(0.999, x, u, 0.999 * u, u - gap);
    CancelLt(x, 1.0, u, u - gap, u);
  }

  predicate AllWithin(powers: seq<real>, most: real) {
    forall i | 0 <= i < |powers| :: powers[i] <= most
  }

  lemma {:induction false} SumWithin(a: seq<real>, most: real)
    requires AllWithin(a, most)
    ensures Sum(a) <= most * |a| as real
  {
    if a != [] {
      SumWithin(a[..|a| - 1], most);
      assert most * |a| as real == most * (|a| - 1) as real + most;
    }
  }

  /** A reference that stays `gap` short of n full modules above the plant minimum. */
  lemma BelowWhole(c: Config, reference: real, n: nat, gap: real)
    requires c.Valid() && reference - c.minTotal == c.maxLimit * n as real - gap && gap > 0.0 && n > 0 && reference >= c.minTotal
    ensures Broken(c, reference) == n as real - gap / c.maxLimit
    ensures gap < c.maxLimit * NEAR_WHOLE <==> gap / c.maxLimit < NEAR_WHOLE
    ensures gap / c.maxLimit > 0.0
  {
    Quotient(reference - c.minTotal, c.maxLimit);
    Quotient(gap, c.maxLimit);
    ShortOfWhole(c.maxLimit, reference - c.minTotal, n as real, gap, Broken(c, reference), gap / c.maxLimit);
  }

  lemma ShortOfWhole(u: real, above: real, n: real, gap: real, x: real, g: real)
    requires u > 0.0 && gap > 0.0 && above == u * n - gap && x * u == above && g * u == gap
    ensures x == n - g && g > 0.0 && (gap < u * NEAR_WHOLE <==> g < NEAR_WHOLE)
  {
    assert (n - g) * u == above;
    SameFactor(x, n - g, u, above);
    Cancel(0.0, g, u);
    Cancel(g, NEAR_WHOLE, u);
    Cancel(NEAR_WHOLE, g, u);
  }

  /** A hair below n, or from n on, the target comes after n modules. */
  lemma CountedBeyond(x: real, n: nat)
    requires n > 0 && x > n as real - NEAR_WHOLE
    ensures (if NearWhole(x) then Ceil(x) + 1 else Ceil(x)) >= n + 1
  {
  }

  /** Below n full modules by more than a thousandth of one, the target index stays under n. */
  lemma IndexBelow(c: Config, reference: real, n: nat, gap: real)
    requires c.Valid() && n > 0 && reference - c.minTotal == c.maxLimit * n as real - gap && gap > 0.0
    requires gap >= c.maxLimit * NEAR_WHOLE
    ensures TargetIndex(c, reference, n) < n
  {
    if reference >= c.minTotal {
      BelowWhole(c, reference, n, gap);
    } else {
      NothingAsked(c, reference, n);
    }
  }

  /** Below the plant minimum the first module is the target. */
  lemma NothingAsked(c: Config, reference: real, n: nat)
    requires c.Valid() && reference <= c.minTotal
    ensures TargetIndex(c, reference, n) == 0
  {
    assert Broken(c, reference) == 0.0;
  }

  /** Nearer than that, or beyond, the target lies past the last module. */
  lemma IndexBeyond(c: Config, reference: real, n: nat, gap: real)
    requires c.Valid() && n > 0 && reference - c.minTotal == c.maxLimit * n as real - gap && reference > c.minTotal
    requires gap < c.maxLimit * NEAR_WHOLE
    ensures TargetIndex(c, reference, n) == n
  {
    if gap > 0.0 {
      BelowWhole(c, reference, n, gap);
    } else {
      Quotient(reference - c.minTotal, c.maxLimit);
      AtLeastWhole(c.maxLimit, reference - c.minTotal, n as real, Broken(c, reference));
    }
    CountedBeyond(Broken(c, reference), n);
  }

  lemma AtLeastWhole(u: real, above: real, n: real, x: real)
    requires u > 0.0 && above >= u * n && x * u == above
    ensures x >= n
  {
    Cancel(n, x, u);
  }

  ghost predicate NeverOverruns(c: Config, n: nat)
    requires c.maxLimit > 0.0
  {
    forall reference: real, powers: seq<real> | |powers| == n && AllWithin(powers, c.maxLimit) :: !Overruns(c, reference, powers)
  }

  /** The modules are small enough for the index: a thousandth of one is no more than the stationary band on top of the
      plant minimum, or all of them together hardly exceed a negative one. */
  predicate SmallModules(c: Config, n: nat) {
    n > 0 && (c.maxLimit <= 10.0 + 1000.0 * c.minTotal || c.maxLimit * n as real < 0.02 + c.minTotal)
  }

  /** Without a negative plant minimum it is a matter of the modules' size only. */
  lemma SmallModulesIff(c: Config, n: nat)
    requires c.Valid() && n > 0 && c.minTotal >= 0.0
    ensures SmallModules(c, n) <==> c.maxLimit <= 10.0 + 1000.0 * c.minTotal
  {
    ScaleLe(c.maxLimit, 1.0, n as real);
  }

  lemma IndexInRange(c: Config, reference: real, n: nat)
    requires c.Valid() && SmallModules(c, n) && reference <= c.maxLimit * n as real - STATIONARY_BAND
    requires AbsReal(reference - c.minTotal) >= STATIONARY_BAND
    ensures TargetIndex(c, reference, n) < n
  {
    var full := c.maxLimit * n as real;
    if reference <= c.minTotal {
      NothingAsked(c, reference, n);
    } else {
      IndexBelow(c, reference, n, full - (reference - c.minTotal));
    }
  }

  lemma SmallModulesInRange(c: Config, reference: real, powers: seq<real>)
    requires c.Valid() && SmallModules(c, |powers|) && AllWithin(powers, c.maxLimit)
    ensures !Overruns(c, reference, powers)
  {
    if reference - Sum(powers) <= -STATIONARY_BAND && AbsReal(reference - c.minTotal) >= STATIONARY_BAND {
      SumWithin(powers, c.maxLimit);
      IndexInRange(c, reference, |powers|);
    }
  }

  lemma {:induction false} SumOfEqual(a: seq<real>, x: real)
    requires forall i | 0 <= i < |a| :: a[i] == x
    ensures Sum(a) == x * |a| as real
  {
    if a != [] {
      SumOfEqual(a[..|a| - 1], x);
      assert x * |a| as real == x * (|a| - 1) as real + x;
    }
  }

  lemma LargeModulesOverrun(c: Config, n: nat) returns (reference: real, powers: seq<real>)
    requires c.Valid() && !SmallModules(c, n)
    ensures |powers| == n && AllWithin(powers, c.maxLimit) && Overruns(c, reference, powers)
  {
    powers := seq(n, i => c.maxLimit);
    SumOfEqual(powers, c.maxLimit);
    if n == 0 {
      reference := Least(0.0, c.minTotal) - 1.0;
    } else {
      var full := c.maxLimit * n as real;
      reference := full - 0.01;
      IndexBeyond(c, reference, n, full - (reference - c.minTotal));
    }
  }

  /** For every plant minimum, positive or not, the unchecked index is safe exactly for small modules; without a minimum
      that is up to 10 MW. */
  lemma NeverOverrunsIff(c: Config, n: nat)
    requires c.Valid()
    ensures NeverOverruns(c, n) <==> SmallModules(c, n)
  {
    if SmallModules(c, n) {
      forall reference: real, powers: seq<real> | |powers| == n && AllWithin(powers, c.maxLimit)
        ensures !Overruns(c, reference, powers)
      {
        SmallModulesInRange(c, reference, powers);
      }
    } else {
      var reference, powers := LargeModulesOverrun(c, n);
    }
  }

  function Limits(c: Config, reference: real, powers: seq<real>): (r: seq<real>)
    requires c.maxLimit > 0.0
    ensures |r| == |powers| && forall i | 0 <= i < |r| :: r[i] == LimitAt(c, reference, powers, i)
  {
    seq(|powers|, i requires 0 <= i < |powers| => LimitAt(c, reference, powers, i))
  }

  /** A reference just below a whole number of modules. */
  predicate JustBelow(c: Config, reference: real)
    requires c.maxLimit > 0.0
  {
    var x := Broken(c, reference);
    NearWhole(x) && x != x.Floor as real
  }

  /** Where the target is, as long as the plant can meet the reference. */
  lemma TargetIsFloor(c: Config, reference: real, n: nat)
    requires c.Valid() && TargetIndex(c, reference, n) < n
    ensures TargetIndex(c, reference, n) == Broken(c, reference).Floor + (if JustBelow(c, reference) then 1 else 0)
  {
    Quotient(Largest(0.0, reference - c.minTotal), c.maxLimit);
    Cancel(0.0, Broken(c, reference), c.maxLimit);
  }

  /** The branch that puts every module on standby. */
  predicate AllIdle(c: Config, reference: real, powers: seq<real>) {
    !RampsUp(reference, powers) && AbsReal(reference - c.minTotal) < STATIONARY_BAND
  }

  /** The total of the first k of: `full` up to the target, `lifted` at it, `idle` behind it. */
  function Staircase(full: real, lifted: real, idle: real, target: nat, k: nat): real {
    if k <= target then full * k as real else full * target as real + lifted + idle * (k - 1 - target) as real
  }

  lemma NextStair(full: real, lifted: real, idle: real, target: nat, k: nat)
    ensures Staircase(full, lifted, idle, target, k + 1)
            == Staircase(full, lifted, idle, target, k) + (if k < target then full else if k == target then lifted else idle)
  {
    OneMore(k, full);
    if k > target {
      OneMore(k - 1 - target, idle);
    }
  }

  function LimitsUpTo(c: Config, reference: real, target: nat, k: nat): real
    requires c.maxLimit > 0.0
  {
    Staircase(c.maxLimit, Largest(c.standby, Rest(c, reference)), c.standby, target, k)
  }

  lemma {:induction false} LimitsPrefix(c: Config, reference: real, powers: seq<real>, k: nat)
    requires c.Valid() && !AllIdle(c, reference, powers) && k <= |powers|
    ensures Sum(Limits(c, reference, powers)[..k]) == LimitsUpTo(c, reference, TargetIndex(c, reference, |powers|), k)
  {
    if k > 0 {
      LimitsPrefix(c, reference, powers, k - 1);
      var target := TargetIndex(c, reference, |powers|);
      assert Limits(c, reference, powers)[..k][..k - 1] == Limits(c, reference, powers)[..k - 1];
      NextStair(c.maxLimit, Largest(c.standby, Rest(c, reference)), c.standby, target, k - 1);
    }
  }

  /** What the limits exceed the reference by because standby is kept: idle modules run at standby, and the rest of
      the division is lifted or snapped to it. */
  function StandbySurplus(c: Config, reference: real, n: nat): real
    requires c.maxLimit > 0.0
  {
    Largest(c.standby, Rest(c, reference)) - (reference - c.maxLimit * Broken(c, reference).Floor as real)
    + c.standby * (n - 1 - TargetIndex(c, reference, n)) as real
  }

  /** The limits add up to the reference plus the standby surplus, except just below a whole number of modules: there
      one module too many runs in full. */
  lemma LimitsMeetReferenceIff(c: Config, reference: real, powers: seq<real>)
    requires c.Valid() && !AllIdle(c, reference, powers) && TargetIndex(c, reference, |powers|) < |powers|
    ensures Sum(Limits(c, reference, powers)) == reference + StandbySurplus(c, reference, |powers|)
                                                 + (if JustBelow(c, reference) then c.maxLimit else 0.0)
    ensures Sum(Limits(c, reference, powers)) == reference + StandbySurplus(c, reference, |powers|)
            <==> !JustBelow(c, reference)
  {
    LimitsTotal(c, reference, powers);
    SurplusSplits(c, reference, |powers|);
  }

  lemma LimitsTotal(c: Config, reference: real, powers: seq<real>)
    requires c.Valid() && !AllIdle(c, reference, powers)
    ensures Sum(Limits(c, reference, powers)) == LimitsUpTo(c, reference, TargetIndex(c, reference, |powers|), |powers|)
  {
    LimitsPrefix(c, reference, powers, |powers|);
    assert Limits(c, reference, powers)[..|powers|] == Limits(c, reference, powers);
  }

  lemma SurplusSplits(c: Config, reference: real, n: nat)
    requires c.Valid() && TargetIndex(c, reference, n) < n
    ensures LimitsUpTo(c, reference, TargetIndex(c, reference, n), n)
            == reference + StandbySurplus(c, reference, n) + (if JustBelow(c, reference) then c.maxLimit else 0.0)
  {
    TargetIsFloor(c, reference, n);
    OneMoreIf(c.maxLimit, TargetIndex(c, reference, n), Broken(c, reference).Floor, JustBelow(c, reference));
  }

  lemma OneMoreIf(x: real, target: int, floor: int, more: bool)
    requires target == floor + (if more then 1 else 0)
    ensures x * target as real == x * floor as real + (if more then x else 0.0)
  {
  }

  /** The target module is asked for exactly what the modules in full leave of the reference, except for what is below
      standby or between standby and the first step: then it waits at standby. */
  lemma TargetBringsRestIff(c: Config, reference: real, powers: seq<real>)
    requires c.Valid() && !AllIdle(c, reference, powers)
    ensures var rest := reference - c.maxLimit * Broken(c, reference).Floor as real;
      var limit := LimitAt(c, reference, powers, TargetIndex(c, reference, |powers|));
      && (limit == rest <==> c.standby <= rest && (rest <= c.standby + 0.005 || rest >= c.firstStep - 0.005))
      && (limit != rest ==> limit == c.standby)
  {
    var rest := reference - c.maxLimit * Broken(c, reference).Floor as real;
    assert LimitAt(c, reference, powers, TargetIndex(c, reference, |powers|)) == Largest(c.standby, Rest(c, reference));
    SnappedOrNot(c, rest, Rest(c, reference));
  }

  lemma SnappedOrNot(c: Config, rest: real, snapped: real)
    requires c.Valid() && snapped == if c.standby + TOLERANCE < rest < c.firstStep - TOLERANCE then c.standby else rest
    ensures Largest(c.standby, snapped) == rest
        <==> c.standby <= rest && (rest <= c.standby + 0.005 || rest >= c.firstStep - 0.005)
    ensures Largest(c.standby, snapped) != rest ==> Largest(c.standby, snapped) == c.standby
  {
  }

  /** At the plant minimum, when no more is asked for, every module winds down: it stops, or steps down by the ramp. */
  lemma IdlePlantWindsDown(c: Config, reference: real, plant: Plant, i: nat)
    requires c.Valid() && plant.Valid() && i < |plant.powers| && OnGrid(c, plant.powers[i])
    requires AllIdle(c, reference, plant.powers) && !IsStationary(reference, plant.powers)
    ensures var r := Dispatch(c, reference, plant);
      && r.Some? && r.value.limits[i] == c.standby
      && (r.value.powers[i] == c.standby || (r.value.powers[i] == plant.powers[i] - c.ramp && r.value.powers[i] >= c.firstStep - 0.005))
  {
    assert Limits(c, reference, plant.powers)[i] == c.standby;
    WindsDown(c, plant.powers[i]);
  }

  lemma WindsDown(c: Config, power: real)
    requires c.Valid() && OnGrid(c, power)
    ensures var after := PowerAfter(c, c.standby, power);
      after == c.standby || (after == power - c.ramp && after >= c.firstStep - 0.005)
  {
    MovementIs(c, c.standby, power);
  }

  // ----- the whole plant, in dispatch order

  /** None when the unchecked index is out of range. */
  function Dispatch(c: Config, reference: real, plant: Plant): (r: Option<Plant>)
    requires c.maxLimit > 0.0 && plant.Valid()
    ensures r.Some? ==> r.value.Valid() && |r.value.powers| == |plant.powers|
    ensures r.None? <==> Overruns(c, reference, plant.powers)
  {
    var n := |plant.powers|;
    if IsStationary(reference, plant.powers) then
      Some(plant.(states := seq(n, i requires 0 <= i < n => SettledState(c, plant.states[i], plant.powers[i]))))
    else if Overruns(c, reference, plant.powers) then None
    else
      var limits := Limits(c, reference, plant.powers);
      Some(Plant(seq(n, i requires 0 <= i < n => PowerAfter(c, limits[i], plant.powers[i])),
                 seq(n, i requires 0 <= i < n => StateAfter(c, limits[i], plant.powers[i])), limits))
  }

  predicate AllOnGrid(c: Config, powers: seq<real>) {
    forall i | 0 <= i < |powers| :: OnGrid(c, powers[i])
  }

  predicate BoundedMove(c: Config, limit: real, before: real, after: real) {
    Starts(c, limit, before) || after == c.standby || AbsReal(after - before) <= c.ramp
  }

  /** One dispatch: never over the maximum, every module on standby or producing, and only starting or stopping
      modules move faster than the ramp. */
  lemma DispatchIsSafe(c: Config, reference: real, plant: Plant)
    requires c.Safe() && plant.Valid() && AllWithin(plant.powers, c.maxLimit)
    ensures var r := Dispatch(c, reference, plant);
      r.Some? ==> AllWithin(r.value.powers, c.maxLimit)
                  && (AllOnGrid(c, plant.powers) || !IsStationary(reference, plant.powers) ==> AllOnGrid(c, r.value.powers))
                  && (IsStationary(reference, plant.powers) ==> r.value.powers == plant.powers && r.value.limits == plant.limits)
    ensures var r := Dispatch(c, reference, plant);
      r.Some? && !IsStationary(reference, plant.powers) ==>
        forall i | 0 <= i < |plant.powers| :: BoundedMove(c, r.value.limits[i], plant.powers[i], r.value.powers[i])
  {
    if !IsStationary(reference, plant.powers) && !Overruns(c, reference, plant.powers) {
      forall i | 0 <= i < |plant.powers|
        ensures var limit, power := LimitAt(c, reference, plant.powers, i), plant.powers[i];
          limit <= c.maxLimit && OnGrid(c, PowerAfter(c, limit, power)) && PowerAfter(c, limit, power) <= c.maxLimit
          && BoundedMove(c, limit, power, PowerAfter(c, limit, power))
      {
        LimitWithin(c, reference, plant.powers, i);
        ModuleStep(c, LimitAt(c, reference, plant.powers, i), plant.powers[i]);
      }
    }
  }

  // ----- the module order

  predicate IsPermutation(order: seq<nat>, n: nat) {
    |order| == n && (forall i | 0 <= i < n :: order[i] < n) && Distinct(order)
  }

  predicate Distinct(order: seq<nat>) {
    forall i, j | 0 <= i < j < |order| :: order[i] != order[j]
  }

  function Gathered<T>(a: seq<T>, order: seq<nat>): (r: seq<T>)
    requires forall i | 0 <= i < |order| :: order[i] < |a|
    ensures |r| == |order| && forall i | 0 <= i < |r| :: r[i] == a[order[i]]
  {
    seq(|order|, i requires 0 <= i < |order| => a[order[i]])
  }

  function GatheredPlant(plant: Plant, order: seq<nat>): (r: Plant)
    requires plant.Valid() && IsPermutation(order, |plant.powers|)
    ensures r.Valid() && |r.powers| == |plant.powers|
  {
    Plant(Gathered(plant.powers, order), Gathered(plant.states, order), Gathered(plant.limits, order))
  }

  /** A step of the real modules: it is the dispatch in the order of the map, and nothing else. */
  ghost predicate IsStep(c: Config, reference: real, order: seq<nat>, plant: Plant, plant': Plant)
    requires c.maxLimit > 0.0
  {
    plant.Valid() && plant'.Valid() && |plant'.powers| == |plant.powers| && IsPermutation(order, |plant.powers|)
    && Dispatch(c, reference, GatheredPlant(plant, order)) == Some(GatheredPlant(plant', order))
  }

  lemma EveryModuleInOrder(order: seq<nat>, n: nat, m: nat) returns (i: nat)
    requires IsPermutation(order, n) && m < n
    ensures i < n && order[i] == m
  {
    if forall i | 0 <= i < n :: order[i] != m {
      var used := set i | 0 <= i < n :: order[i];
      var all := Numbers(n);
      Injective(order, n);
      assert used <= all - {m};
      assert |all - {m}| == n - 1;
      SubsetSize(used, all - {m});
      assert false;
    }
    i :| i < n && order[i] == m;
  }

  lemma {:induction false} Injective(order: seq<nat>, k: nat)
    requires k <= |order| && Distinct(order)
    ensures |set i | 0 <= i < k :: order[i]| == k
  {
    if k > 0 {
      Injective(order, k - 1);
      var before := set i | 0 <= i < k - 1 :: order[i];
      assert (set i | 0 <= i < k :: order[i]) == before + {order[k - 1]};
      assert order[k - 1] !in before;
    }
  }

  ghost function Numbers(n: nat): (r: set<nat>)
    ensures |r| == n && forall k: nat :: k in r <==> k < n
  {
    if n == 0 then {} else Numbers(n - 1) + {n - 1}
  }

  lemma {:induction false} SubsetSize(a: set<nat>, b: set<nat>)
    requires a <= b
    ensures |a| <= |b|
  {
    if a != {} {
      var x :| x in a;
      SubsetSize(a - {x}, b - {x});
    }
  }

  /** A property of all modules in dispatch order is one of all modules. */
  lemma GatheredDetermines<T>(a: seq<T>, b: seq<T>, order: seq<nat>)
    requires |a| == |b| && IsPermutation(order, |a|)
    requires Gathered(a, order) == Gathered(b, order)
    ensures a == b
  {
    forall m | 0 <= m < |a|
      ensures a[m] == b[m]
    {
      var i := EveryModuleInOrder(order, |a|, m);
      assert Gathered(a, order)[i] == Gathered(b, order)[i];
    }
  }

  /** The step is a function of the plant: every module is written. */
  lemma StepIsUnique(c: Config, reference: real, order: seq<nat>, plant: Plant, a: Plant, b: Plant)
    requires c.maxLimit > 0.0 && IsStep(c, reference, order, plant, a) && IsStep(c, reference, order, plant, b)
    ensures a == b
  {
    GatheredDetermines(a.powers, b.powers, order);
    GatheredDetermines(a.states, b.states, order);
    GatheredDetermines(a.limits, b.limits, order);
  }

  lemma Renamed(order: seq<nat>, names: seq<nat>, n: nat)
    requires IsPermutation(order, n) && IsPermutation(names, n)
    ensures IsPermutation(Gathered(names, order), n)
  {
  }

  lemma GatheredTwice<T>(a: seq<T>, names: seq<nat>, order: seq<nat>)
    requires IsPermutation(names, |a|) && IsPermutation(order, |a|)
    ensures IsPermutation(Gathered(names, order), |a|)
    ensures Gathered(a, Gathered(names, order)) == Gathered(Gathered(a, names), order)
  {
    Renamed(order, names, |a|);
  }

  /** Giving the modules other numbers, in the arrays and in the map alike, changes nothing but the numbers. */
  lemma StepCommutesWithRenaming(c: Config, reference: real, order: seq<nat>, names: seq<nat>, plant: Plant, plant': Plant)
    requires c.maxLimit > 0.0 && plant.Valid() && plant'.Valid() && |plant.powers| == |plant'.powers|
    requires IsPermutation(names, |plant.powers|) && IsPermutation(order, |plant.powers|)
    ensures IsStep(c, reference, Gathered(names, order), plant, plant')
            <==> IsStep(c, reference, order, GatheredPlant(plant, names), GatheredPlant(plant', names))
  {
    GatheredTwice(plant.powers, names, order);
    GatheredTwice(plant.states, names, order);
    GatheredTwice(plant.limits, names, order);
    GatheredTwice(plant'.powers, names, order);
    GatheredTwice(plant'.states, names, order);
    GatheredTwice(plant'.limits, names, order);
  }

  // ----- whole runs, with a new reference and a new order in every step

  datatype Request = Request(reference: real, order: seq<nat>)

  ghost predicate IsRun(c: Config, requests: seq<Request>, plants: seq<Plant>)
    requires c.maxLimit > 0.0
  {
    |plants| == |requests| + 1 && forall k: nat | k < |requests| :: StepOf(c, requests, plants, k)
  }

  ghost predicate StepOf(c: Config, requests: seq<Request>, plants: seq<Plant>, k: nat)
    requires c.maxLimit > 0.0 && |plants| == |requests| + 1 && k < |requests|
  {
    IsStep(c, requests[k].reference, requests[k].order, plants[k], plants[k + 1])
  }

  /** A step outside the stationary band. */
  ghost predicate MovesAt(c: Config, requests: seq<Request>, plants: seq<Plant>, k: nat)
    requires c.maxLimit > 0.0 && |plants| == |requests| + 1 && k < |requests|
  {
    StepOf(c, requests, plants, k)
    && !IsStationary(requests[k].reference, Gathered(plants[k].powers, requests[k].order))
  }

  lemma GatheredWithin(powers: seq<real>, order: seq<nat>, c: Config)
    requires IsPermutation(order, |powers|)
    ensures AllWithin(powers, c.maxLimit) <==> AllWithin(Gathered(powers, order), c.maxLimit)
    ensures AllOnGrid(c, powers) <==> AllOnGrid(c, Gathered(powers, order))
  {
    forall m | 0 <= m < |powers|
      ensures exists i :: 0 <= i < |order| && Gathered(powers, order)[i] == powers[m]
    {
      var i := EveryModuleInOrder(order, |powers|, m);
      assert Gathered(powers, order)[i] == powers[m];
    }
  }

  lemma StepIsSafe(c: Config, reference: real, order: seq<nat>, plant: Plant, plant': Plant)
    requires c.Safe() && IsStep(c, reference, order, plant, plant') && AllWithin(plant.powers, c.maxLimit)
    ensures AllWithin(plant'.powers, c.maxLimit)
    ensures AllOnGrid(c, plant.powers) || !IsStationary(reference, Gathered(plant.powers, order)) ==> AllOnGrid(c, plant'.powers)
  {
    GatheredWithin(plant.powers, order, c);
    GatheredWithin(plant'.powers, order, c);
    DispatchIsSafe(c, reference, GatheredPlant(plant, order));
  }

  /** From powers within the maximum, whatever is asked for: the maximum is never exceeded; every module is on standby
      or producing from the first non-stationary step on. */
  lemma {:induction false} RunIsSafe(c: Config, requests: seq<Request>, plants: seq<Plant>, first: nat, k: nat)
    requires c.Safe() && IsRun(c, requests, plants) && plants[0].powers != [] && AllWithin(plants[0].powers, c.maxLimit)
    requires plants[0].Valid() && first < k <= |requests|
    requires MovesAt(c, requests, plants, first)
    ensures AllWithin(plants[k].powers, c.maxLimit) && AllOnGrid(c, plants[k].powers)
  {
    FirstMove(c, requests, plants, first);
    StaysOnGrid(c, requests, plants, first + 1, k);
    RunWithin(c, requests, plants, k);
  }

  lemma FirstMove(c: Config, requests: seq<Request>, plants: seq<Plant>, k: nat)
    requires c.Safe() && IsRun(c, requests, plants) && plants[0].Valid() && AllWithin(plants[0].powers, c.maxLimit)
    requires k < |requests| && MovesAt(c, requests, plants, k)
    ensures AllOnGrid(c, plants[k + 1].powers)
  {
    RunWithin(c, requests, plants, k);
    StepIsSafe(c, requests[k].reference, requests[k].order, plants[k], plants[k + 1]);
  }

  lemma {:induction false} StaysOnGrid(c: Config, requests: seq<Request>, plants: seq<Plant>, j: nat, k: nat)
    requires c.Safe() && IsRun(c, requests, plants) && plants[0].Valid() && AllWithin(plants[0].powers, c.maxLimit)
    requires j <= k <= |requests| && AllOnGrid(c, plants[j].powers)
    ensures AllOnGrid(c, plants[k].powers)
  {
    if j < k {
      StaysOnGrid(c, requests, plants, j, k - 1);
      RunWithin(c, requests, plants, k - 1);
      assert StepOf(c, requests, plants, k - 1);
      StepIsSafe(c, requests[k - 1].reference, requests[k - 1].order, plants[k - 1], plants[k]);
    }
  }

  lemma {:induction false} RunWithin(c: Config, requests: seq<Request>, plants: seq<Plant>, k: nat)
    requires c.Safe() && IsRun(c, requests, plants) && AllWithin(plants[0].powers, c.maxLimit) && plants[0].Valid()
    requires k <= |requests|
    ensures plants[k].Valid() && |plants[k].powers| == |plants[0].powers| && AllWithin(plants[k].powers, c.maxLimit)
  {
    if k > 0 {
      RunWithin(c, requests, plants, k - 1);
      assert StepOf(c, requests, plants, k - 1);
      StepIsSafe(c, requests[k - 1].reference, requests[k - 1].order, plants[k - 1], plants[k]);
    }
  }

  /** With small modules no request can make the index run out, over any run. */
  lemma RunNeverOverruns(c: Config, requests: seq<Request>, plants: seq<Plant>, k: nat, next: Request)
    requires c.Safe() && IsRun(c, requests, plants) && k <= |requests| && SmallModules(c, |plants[0].powers|)
    requires plants[0].Valid() && AllWithin(plants[0].powers, c.maxLimit)
    requires IsPermutation(next.order, |plants[0].powers|)
    ensures plants[k].Valid() && |plants[k].powers| == |plants[0].powers|
    ensures Dispatch(c, next.reference, GatheredPlant(plants[k], next.order)).Some?
  {
    RunWithin(c, requests, plants, k);
    GatheredWithin(plants[k].powers, next.order, c);
    SmallModulesInRange(c, next.reference, Gathered(plants[k].powers, next.order));
  }

  /** The modules of a step outside the stationary band, each with its new limit. */
  lemma StepIsModerate(c: Config, reference: real, order: seq<nat>, plant: Plant, plant': Plant, m: nat)
    requires c.Valid() && IsStep(c, reference, order, plant, plant') && m < |plant.powers|
    requires !IsStationary(reference, Gathered(plant.powers, order))
    ensures ModeratesMove(c, plant'.limits[m], plant.powers[m], plant'.powers[m])
  {
    var i := EveryModuleInOrder(order, |plant.powers|, m);
    var dispatched := GatheredPlant(plant', order);
    assert dispatched.powers[i] == plant'.powers[m] && dispatched.limits[i] == plant'.limits[m];
    DispatchIsModerate(c, reference, GatheredPlant(plant, order), i);
  }

  lemma DispatchIsModerate(c: Config, reference: real, plant: Plant, i: nat)
    requires c.Valid() && plant.Valid() && i < |plant.powers|
    requires !IsStationary(reference, plant.powers) && Dispatch(c, reference, plant).Some?
    ensures var r := Dispatch(c, reference, plant).value; ModeratesMove(c, r.limits[i], plant.powers[i], r.powers[i])
  {
    ModuleIsModerate(c, Limits(c, reference, plant.powers)[i], plant.powers[i]);
  }

  /** In the stationary band no module moves. */
  lemma StationaryKeepsPowers(c: Config, reference: real, order: seq<nat>, plant: Plant, plant': Plant)
    requires c.Valid() && IsStep(c, reference, order, plant, plant')
    requires IsStationary(reference, Gathered(plant.powers, order))
    ensures plant'.powers == plant.powers && plant'.limits == plant.limits
  {
    GatheredDetermines(plant.powers, plant'.powers, order);
    GatheredDetermines(plant.limits, plant'.limits, order);
  }

  lemma StepKeepsGrid(c: Config, reference: real, order: seq<nat>, plant: Plant, plant': Plant)
    requires c.Valid() && IsStep(c, reference, order, plant, plant')
    requires AllOnGrid(c, plant.powers) || !IsStationary(reference, Gathered(plant.powers, order))
    ensures AllOnGrid(c, plant'.powers)
  {
    if IsStationary(reference, Gathered(plant.powers, order)) {
      StationaryKeepsPowers(c, reference, order, plant, plant');
    } else {
      GatheredWithin(plant'.powers, order, c);
      forall i | 0 <= i < |plant.powers|
        ensures OnGrid(c, GatheredPlant(plant', order).powers[i])
      {
        AfterIsOnGrid(c, Limits(c, reference, Gathered(plant.powers, order))[i], Gathered(plant.powers, order)[i]);
      }
    }
  }

  lemma AfterIsOnGrid(c: Config, limit: real, power: real)
    ensures OnGrid(c, PowerAfter(c, limit, power))
  {
  }

  /** Whatever the plant minimum and the powers at the start: on the grid after step `first`, on the grid ever after. */
  lemma {:induction false} RunOnGrid(c: Config, requests: seq<Request>, plants: seq<Plant>, first: nat, k: nat)
    requires c.Valid() && IsRun(c, requests, plants) && first < k <= |requests| && MovesAt(c, requests, plants, first)
    ensures AllOnGrid(c, plants[k].powers)
  {
    assert StepOf(c, requests, plants, k - 1);
    if first < k - 1 {
      RunOnGrid(c, requests, plants, first, k - 1);
    }
    StepKeepsGrid(c, requests[k - 1].reference, requests[k - 1].order, plants[k - 1], plants[k]);
  }

  /** Over a run, from the first step outside the stationary band on, no step lifts a module faster than ramp and start
      allow. */
  lemma RunIsModerate(c: Config, requests: seq<Request>, plants: seq<Plant>, first: nat, k: nat, m: nat)
    requires c.Valid() && IsRun(c, requests, plants) && first < k < |requests| && MovesAt(c, requests, plants, first)
    requires m < |plants[k].powers|
    ensures |plants[k + 1].powers| == |plants[k].powers|
    ensures plants[k + 1].powers[m] - plants[k].powers[m] <= MostRise(c)
  {
    RunOnGrid(c, requests, plants, first, k);
    var request := requests[k];
    assert StepOf(c, requests, plants, k);
    if IsStationary(request.reference, Gathered(plants[k].powers, request.order)) {
      StationaryKeepsPowers(c, request.reference, request.order, plants[k], plants[k + 1]);
    } else {
      StepIsModerate(c, request.reference, request.order, plants[k], plants[k + 1], m);
      assert OnGrid(c, plants[k].powers[m]);
    }
  }

  // ----- the loops

  method MoveModules(c: Config, limits: seq<real>, powers: array<real>)
    requires powers.Length == |limits|
    modifies powers
    ensures forall i | 0 <= i < |limits| :: powers[i] == PowerAfter(c, limits[i], old(powers[i]))
  {
    var n := powers.Length;
    var toLimit, movement := new real[n], new real[n];
    for i := 0 to n
      invariant forall k | 0 <= k < i :: toLimit[k] == limits[k] - powers[k] && movement[k] == Movement(c, limits[k], powers[k])
      invariant powers[..] == old(powers[..])
    {
      toLimit[i] := limits[i] - powers[i];
      movement[i] := Least(AbsReal(toLimit[i]), c.ramp) * (if toLimit[i] >= 0.0 then 1.0 else -1.0);
    }
    StartAndMove(c, limits, powers, toLimit, movement);
    StopAndHold(c, powers);
  }

  /** The startup logic, then the ramp. */
  method StartAndMove(c: Config, limits: seq<real>, powers: array<real>, toLimit: array<real>, movement: array<real>)
    requires powers.Length == toLimit.Length == movement.Length == |limits|
    requires powers != toLimit && powers != movement && toLimit != movement
    requires forall k | 0 <= k < |limits| ::
      toLimit[k] == limits[k] - powers[k] && movement[k] == Movement(c, limits[k], powers[k])
    modifies powers, movement
    ensures forall i | 0 <= i < |limits| :: powers[i] == Moved(c, limits[i], old(powers[i]))
  {
    var n := powers.Length;
    for i := 0 to n
      invariant forall k | 0 <= k < i :: powers[k] + movement[k] == Moved(c, limits[k], old(powers[k]))
      invariant forall k | i <= k < n :: powers[k] == old(powers[k]) && movement[k] == old(movement[k])
    {
      if AbsReal(powers[i] - c.standby) < TOLERANCE && toLimit[i] > TOLERANCE {
        powers[i] := c.firstStep;
        movement[i] := 0.0;
      }
    }
    for i := 0 to n
      invariant forall k | 0 <= k < i :: powers[k] == Moved(c, limits[k], old(powers[k]))
      invariant forall k | i <= k < n :: powers[k] + movement[k] == Moved(c, limits[k], old(powers[k]))
    {
      powers[i] := powers[i] + movement[i];
    }
  }

  /** The shutdown logic, then the hot standby floor. */
  method StopAndHold(c: Config, powers: array<real>)
    modifies powers
    ensures forall i | 0 <= i < powers.Length :: powers[i] == HotFloor(c, ShutDown(c, old(powers[i])))
  {
    var n := powers.Length;
    for i := 0 to n
      invariant forall k | 0 <= k < i :: powers[k] == ShutDown(c, old(powers[k]))
      invariant forall k | i <= k < n :: powers[k] == old(powers[k])
    {
      if powers[i] > c.standby + TOLERANCE && powers[i] < c.firstStep - TOLERANCE {
        powers[i] := c.standby;
      }
    }
    for i := 0 to n
      invariant forall k | 0 <= k < i :: powers[k] == HotFloor(c, ShutDown(c, old(powers[k])))
      invariant forall k | i <= k < n :: powers[k] == ShutDown(c, old(powers[k]))
    {
      if powers[i] <= c.standby + TOLERANCE {
        powers[i] := c.standby;
      }
    }
  }

  method UpdateStates(c: Config, limits: seq<real>, before: seq<real>, powers: array<real>, states: array<int>)
    requires powers.Length == states.Length == |limits| == |before|
    requires forall i | 0 <= i < |limits| :: powers[i] == PowerAfter(c, limits[i], before[i])
    modifies states
    ensures forall i | 0 <= i < |limits| :: states[i] == StateAfter(c, limits[i], before[i])
  {
    for i := 0 to powers.Length
      invariant forall k | 0 <= k < i :: states[k] == StateAfter(c, limits[k], before[k])
    {
      states[i] :=
        if AbsReal(powers[i] - c.standby) < TOLERANCE then STANDBY
        else if AbsReal(powers[i] - c.maxLimit) < TOLERANCE then OPTIMAL
        else if AbsReal(powers[i] - limits[i]) < TOLERANCE then STATIONARY
        else if limits[i] - before[i] > 0.0 then RAMP_UP
        else RAMP_DOWN;
    }
  }

  /** Writes the dispatch order's values back to the modules. */
  method WriteBack<T>(values: seq<T>, order: seq<nat>, a: array<T>)
    requires |values| == a.Length && IsPermutation(order, a.Length)
    modifies a
    ensures Gathered(a[..], order) == values
  {
    for i := 0 to a.Length
      invariant forall k | 0 <= k < i :: a[order[k]] == values[k]
    {
      a[order[i]] := values[i];
    }
  }

  /** The slice assignments to the active limits, unless the target index is out of range. */
  method ActiveLimits(c: Config, reference: real, powers: seq<real>) returns (limits: Option<seq<real>>)
    requires c.maxLimit > 0.0 && !IsStationary(reference, powers)
    ensures limits == if Overruns(c, reference, powers) then None else Some(Limits(c, reference, powers))
  {
    var n := |powers|;
    var target := TargetIndex(c, reference, n);
    var idle := Largest(c.standby, Rest(c, reference));
    if reference - Sum(powers) > 0.0 {
      if target >= n {
        limits := Some(seq(n, i => c.maxLimit));
      } else {
        limits := Some(seq(target, i => c.maxLimit) + [idle] + seq(n - target - 1, i => c.standby));
      }
    } else if AbsReal(reference - c.minTotal) < STATIONARY_BAND {
      limits := Some(seq(n, i => c.standby));
    } else if target >= n {
      limits := None;
    } else {
      limits := Some(seq(target, i => c.maxLimit) + [idle] + seq(n - target - 1, i => c.standby));
    }
    assert limits.Some? ==> limits.value == Limits(c, reference, powers);
  }

  method Settle(c: Config, powers: seq<real>, states: array<int>)
    requires states.Length == |powers|
    modifies states
    ensures forall i | 0 <= i < |powers| :: states[i] == SettledState(c, old(states[i]), powers[i])
  {
    for i := 0 to states.Length
      invariant forall k | 0 <= k < i ::
        states[k] == if old(states[k]) == STATIONARY && AbsReal(powers[k] - c.maxLimit) < TOLERANCE then OPTIMAL else old(states[k])
      invariant forall k | i <= k < states.Length :: states[k] == old(states[k])
    {
      if states[i] == STATIONARY && AbsReal(powers[i] - c.maxLimit) < TOLERANCE {
        states[i] := OPTIMAL;
      }
    }
    for i := 0 to states.Length
      invariant forall k | 0 <= k < i :: states[k] == SettledState(c, old(states[k]), powers[k])
      invariant forall k | i <= k < states.Length ::
        states[k] == if old(states[k]) == STATIONARY && AbsReal(powers[k] - c.maxLimit) < TOLERANCE then OPTIMAL else old(states[k])
    {
      if states[i] == RAMP_UP || states[i] == RAMP_DOWN {
        states[i] := STATIONARY;
      }
    }
  }

  /** The dispatch on copies in the order of the map. */
  method DispatchVirtual(c: Config, reference: real, plant: Plant) returns (r: Option<Plant>)
    requires c.maxLimit > 0.0 && plant.Valid()
    ensures r == Dispatch(c, reference, plant)
  {
    var n := |plant.powers|;
    var powers := new real[n](i requires 0 <= i < n => plant.powers[i]);
    var states := new int[n](i requires 0 <= i < n => plant.states[i]);
    if IsStationary(reference, plant.powers) {
      Settle(c, plant.powers, states);
      r := Some(plant.(states := states[..]));
      assert r.value.states == Dispatch(c, reference, plant).value.states;
      return;
    }
    var limits := ActiveLimits(c, reference, plant.powers);
    if limits.None? {
      return None;
    }
    MoveModules(c, limits.value, powers);
    UpdateStates(c, limits.value, plant.powers, powers, states);
    r := Some(Plant(powers[..], states[..], limits.value));
    assert r.value.powers == Dispatch(c, reference, plant).value.powers;
    assert r.value.states == Dispatch(c, reference, plant).value.states;
  }

  /** The whole step on the real modules. It returns false, with nothing changed, when the index is out of range. */
  method SimulateSoecStep(c: Config, reference: real, powers: array<real>, states: array<int>, limits: array<real>,
                          virtualMap: seq<nat>) returns (inRange: bool)
    requires c.maxLimit > 0.0 && powers != limits
    requires powers.Length == states.Length == limits.Length && IsPermutation(virtualMap, powers.Length)
    modifies powers, states, limits
    ensures var plant := Plant(old(powers[..]), old(states[..]), old(limits[..]));
      if inRange then IsStep(c, reference, virtualMap, plant, Plant(powers[..], states[..], limits[..]))
      else Overruns(c, reference, GatheredPlant(plant, virtualMap).powers) && Plant(powers[..], states[..], limits[..]) == plant
  {
    var r := DispatchVirtual(c, reference, GatheredPlant(Plant(powers[..], states[..], limits[..]), virtualMap));
    inRange := r.Some?;
    if inRange {
      WriteBack(r.value.powers, virtualMap, powers);
      WriteBack(r.value.states, virtualMap, states);
      WriteBack(r.value.limits, virtualMap, limits);
    }
  }
}
