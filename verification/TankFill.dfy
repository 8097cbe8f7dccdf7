/** Filling the storage tanks in index order (`distribute_mass_to_tanks`, `distribute_mass_and_energy`). */
module TankFill {
  import opened RealAlgebra

  const IDLE: int := 0
  const EMPTY: int := 3
  const FULL: int := 4
  const FULL_SHARE: real := 0.99
  const T_MAX: real := 500.0  // an empty tank is never filled hotter than this

  datatype Tanks = Tanks(states: seq<int>, masses: seq<real>, caps: seq<real>)
  {
    predicate Valid() {
      |states| == |masses| == |caps|
    }

    predicate Eligible(i: nat)
      requires i < |states|
    {
      states[i] == IDLE || states[i] == EMPTY
    }

    function Free(i: nat): real
      requires Valid() && i < |masses|
    {
      caps[i] - masses[i]
    }

    /** No tank that may be filled holds more than it can. */
    predicate Fits()
      requires Valid()
    {
      forall i: nat | i < |masses| :: FitsAt(i)
    }

    predicate FitsAt(i: nat)
      requires Valid() && i < |masses|
    {
      Eligible(i) ==> masses[i] <= caps[i]
    }
  }

  // ----- one delivery. The two variants differ on tanks without room: with `positiveOnly` they are passed over.

  /** What tank i takes when `left` is still to be stored. */
  function Portion(t: Tanks, left: real, positiveOnly: bool, i: nat): real
    requires t.Valid() && i < |t.masses|
  {
    if left <= 0.0 || !t.Eligible(i) || (positiveOnly && t.Free(i) <= 0.0) then 0.0 else Least(left, t.Free(i))
  }

  /** What is still to be stored when the loop comes to tank k. */
  function Remaining(t: Tanks, total: real, positiveOnly: bool, k: nat): real
    requires t.Valid() && k <= |t.masses|
  {
    if k == 0 then total
    else
      var left := Remaining(t, total, positiveOnly, k - 1);
      left - Portion(t, left, positiveOnly, k - 1)
  }

  predicate Reached(t: Tanks, total: real, positiveOnly: bool, i: nat)
    requires t.Valid() && i < |t.masses|
  {
    Remaining(t, total, positiveOnly, i) > 0.0 && t.Eligible(i)
  }

  function Added(t: Tanks, total: real, positiveOnly: bool, i: nat): real
    requires t.Valid() && i < |t.masses|
  {
    Portion(t, Remaining(t, total, positiveOnly, i), positiveOnly, i)
  }

  function MassAfter(t: Tanks, total: real, positiveOnly: bool, i: nat): real
    requires t.Valid() && i < |t.masses|
  {
    t.masses[i] + Added(t, total, positiveOnly, i)
  }

  function StateAfter(t: Tanks, total: real, positiveOnly: bool, i: nat): int
    requires t.Valid() && i < |t.masses|
  {
    if Reached(t, total, positiveOnly, i) && (positiveOnly ==> t.Free(i) > 0.0)
       && MassAfter(t, total, positiveOnly, i) >= t.caps[i] * FULL_SHARE
    then FULL else t.states[i]
  }

  predicate FilledAt(t: Tanks, total: real, positiveOnly: bool, mass: real, state: int, i: nat)
    requires t.Valid() && i < |t.masses|
  {
    mass == MassAfter(t, total, positiveOnly, i) && state == StateAfter(t, total, positiveOnly, i)
  }

  /** A tank that is not overfull takes gas exactly if it is idle or empty, has room, and gas is left when it is its turn. */
  lemma TakesGasIff(t: Tanks, total: real, positiveOnly: bool, i: nat)
    requires t.Valid() && i < |t.masses| && t.masses[i] <= t.caps[i]
    ensures Added(t, total, positiveOnly, i) > 0.0
        <==> (t.states[i] == 0 || t.states[i] == 3) && t.masses[i] < t.caps[i] && Remaining(t, total, positiveOnly, i) > 0.0
    ensures Added(t, total, positiveOnly, i) >= 0.0
  {
  }

  /** A tank is full afterwards exactly if it was, or if it was reached with room left and now holds 99 % of what it can. */
  lemma MarkedFullIff(t: Tanks, total: real, positiveOnly: bool, i: nat)
    requires t.Valid() && i < |t.masses|
    ensures StateAfter(t, total, positiveOnly, i) == 4
        <==> t.states[i] == 4
             || (Reached(t, total, positiveOnly, i) && (t.Free(i) > 0.0 || !positiveOnly)
                 && 100.0 * MassAfter(t, total, positiveOnly, i) >= 99.0 * t.caps[i])
    ensures StateAfter(t, total, positiveOnly, i) != t.states[i]
        ==> t.Eligible(i) && StateAfter(t, total, positiveOnly, i) == 4
  {
  }

  /** Nothing changes once the delivery is used up. */
  lemma {:induction false} UsedUp(t: Tanks, total: real, positiveOnly: bool, i: nat, k: nat)
    requires t.Valid() && i <= k <= |t.masses| && Remaining(t, total, positiveOnly, i) <= 0.0
    ensures Remaining(t, total, positiveOnly, k) == Remaining(t, total, positiveOnly, i)
    ensures k < |t.masses| ==> FilledAt(t, total, positiveOnly, t.masses[k], t.states[k], k)
    decreases k
  {
    if i < k {
      UsedUp(t, total, positiveOnly, i, k - 1);
    }
  }

  // ----- what a delivery does

  function Adds(t: Tanks, total: real, positiveOnly: bool): (r: seq<real>)
    requires t.Valid()
    ensures |r| == |t.masses|
  {
    seq(|t.masses|, i requires 0 <= i < |t.masses| => Added(t, total, positiveOnly, i))
  }

  function MassesAfter(t: Tanks, total: real, positiveOnly: bool): (r: seq<real>)
    requires t.Valid()
    ensures |r| == |t.masses|
  {
    seq(|t.masses|, i requires 0 <= i < |t.masses| => MassAfter(t, total, positiveOnly, i))
  }

  function StatesAfter(t: Tanks, total: real, positiveOnly: bool): (r: seq<int>)
    requires t.Valid()
    ensures |r| == |t.masses|
  {
    seq(|t.masses|, i requires 0 <= i < |t.masses| => StateAfter(t, total, positiveOnly, i))
  }

  function Overflow(t: Tanks, total: real, positiveOnly: bool): real
    requires t.Valid()
  {
    Remaining(t, total, positiveOnly, |t.masses|)
  }

  /** Mass is conserved, whatever the tanks hold. */
  lemma {:induction false} ConservedUpTo(t: Tanks, total: real, positiveOnly: bool, k: nat)
    requires t.Valid() && k <= |t.masses|
    ensures Sum(MassesAfter(t, total, positiveOnly)[..k]) + Remaining(t, total, positiveOnly, k) == Sum(t.masses[..k]) + total
  {
    if k > 0 {
      ConservedUpTo(t, total, positiveOnly, k - 1);
      var after := MassesAfter(t, total, positiveOnly);
      assert after[..k][..k - 1] == after[..k - 1] && t.masses[..k][..k - 1] == t.masses[..k - 1];
    }
  }

  lemma MassIsConserved(t: Tanks, total: real, positiveOnly: bool)
    requires t.Valid()
    ensures Sum(MassesAfter(t, total, positiveOnly)) + Overflow(t, total, positiveOnly) == Sum(t.masses) + total
  {
    ConservedUpTo(t, total, positiveOnly, |t.masses|);
    assert MassesAfter(t, total, positiveOnly)[..|t.masses|] == MassesAfter(t, total, positiveOnly);
    assert t.masses[..|t.masses|] == t.masses;
  }

  function Room(t: Tanks): (r: seq<real>)
    requires t.Valid()
    ensures |r| == |t.masses|
  {
    seq(|t.masses|, i requires 0 <= i < |t.masses| => if t.Eligible(i) then t.Free(i) else 0.0)
  }

  lemma {:induction false} RemainingIsExcess(t: Tanks, total: real, positiveOnly: bool, k: nat)
    requires t.Valid() && t.Fits() && total >= 0.0 && k <= |t.masses|
    ensures Remaining(t, total, positiveOnly, k) == Largest(0.0, total - Sum(Room(t)[..k]))
    ensures Sum(Room(t)[..k]) >= 0.0
  {
    if k > 0 {
      RemainingIsExcess(t, total, positiveOnly, k - 1);
      assert Room(t)[..k][..k - 1] == Room(t)[..k - 1];
      assert t.FitsAt(k - 1);
    }
  }

  /** The overflow is what exceeds the room of all eligible tanks together. */
  lemma OverflowIsExcess(t: Tanks, total: real, positiveOnly: bool)
    requires t.Valid() && t.Fits() && total >= 0.0
    ensures Overflow(t, total, positiveOnly) == Largest(0.0, total - Sum(Room(t)))
  {
    RemainingIsExcess(t, total, positiveOnly, |t.masses|);
    assert Room(t)[..|t.masses|] == Room(t);
  }

  /** Tanks fill strictly in index order: tank i gets what the room before it leaves over, up to its own room. */
  lemma FilledInOrder(t: Tanks, total: real, positiveOnly: bool, i: nat)
    requires t.Valid() && t.Fits() && total >= 0.0 && i < |t.masses|
    ensures MassAfter(t, total, positiveOnly, i)
            == t.masses[i] + Least(Largest(0.0, total - Sum(Room(t)[..i])), Room(t)[i])
    ensures t.Eligible(i) ==> t.masses[i] <= MassAfter(t, total, positiveOnly, i) <= t.caps[i]
    ensures !t.Eligible(i) ==> FilledAt(t, total, positiveOnly, t.masses[i], t.states[i], i)
  {
    RemainingIsExcess(t, total, positiveOnly, i);
    assert t.FitsAt(i);
  }

  /** The two variants store the same in every tank exactly when no tank the delivery reaches is over its capacity:
      one variant then drains the excess back into the delivery, the other leaves it. */
  lemma VariantsAgreeIff(t: Tanks, total: real)
    requires t.Valid()
    ensures MassesAfter(t, total, false) == MassesAfter(t, total, true)
            <==> forall i: nat | i < |t.masses| :: !DrainedAt(t, total, i)
  {
    var plain, positive := MassesAfter(t, total, false), MassesAfter(t, total, true);
    if forall i: nat | i < |t.masses| :: !DrainedAt(t, total, i) {
      forall i: nat | i < |t.masses|
        ensures plain[i] == positive[i]
      {
        SameUpTo(t, total, i);
        assert !DrainedAt(t, total, i);
      }
    }
    if plain == positive {
      forall i: nat | i < |t.masses|
        ensures !DrainedAt(t, total, i)
      {
        assert plain[i] == positive[i];
      }
    }
  }

  predicate DrainedAt(t: Tanks, total: real, i: nat)
    requires t.Valid() && i < |t.masses|
  {
    Reached(t, total, false, i) && t.masses[i] > t.caps[i]
  }

  lemma {:induction false} SameUpTo(t: Tanks, total: real, k: nat)
    requires t.Valid() && k <= |t.masses| && forall i: nat | i < k :: !DrainedAt(t, total, i)
    ensures Remaining(t, total, false, k) == Remaining(t, total, true, k)
  {
    if k > 0 {
      SameUpTo(t, total, k - 1);
      assert !DrainedAt(t, total, k - 1);
    }
  }

  /** When nothing is over capacity they also agree on the overflow, and on every state but one kind: a reached tank
      that was already exactly full is marked FULL by one variant only. */
  lemma StatesDifferIff(t: Tanks, total: real, i: nat)
    requires t.Valid() && t.Fits() && i < |t.masses| && t.caps[i] >= 0.0
    ensures Overflow(t, total, false) == Overflow(t, total, true)
    ensures StateAfter(t, total, false, i) != StateAfter(t, total, true, i)
            <==> Reached(t, total, false, i) && t.masses[i] == t.caps[i]
  {
    forall k: nat | k < |t.masses|
      ensures !DrainedAt(t, total, k)
    {
      assert t.FitsAt(k);
    }
    SameUpTo(t, total, i);
    SameUpTo(t, total, |t.masses|);
    assert t.FitsAt(i);
  }

  // ----- the loops

  /** The first i tanks are done, the others as they were. */
  predicate FilledUpTo(t: Tanks, total: real, positiveOnly: bool, masses: seq<real>, states: seq<int>, i: nat)
    requires t.Valid()
  {
    |masses| == |states| == |t.masses| && forall k: nat | k < |t.masses| :: ProgressAt(t, total, positiveOnly, masses[k], states[k], i, k)
  }

  predicate ProgressAt(t: Tanks, total: real, positiveOnly: bool, mass: real, state: int, i: nat, k: nat)
    requires t.Valid() && k < |t.masses|
  {
    if k < i then FilledAt(t, total, positiveOnly, mass, state, k) else mass == t.masses[k] && state == t.states[k]
  }

  lemma FilledStep(t: Tanks, total: real, positiveOnly: bool, masses: seq<real>, states: seq<int>, i: nat,
                   masses': seq<real>, states': seq<int>)
    requires t.Valid() && i < |t.masses| && FilledUpTo(t, total, positiveOnly, masses, states, i)
    requires masses' == masses[i := MassAfter(t, total, positiveOnly, i)]
    requires states' == states[i := StateAfter(t, total, positiveOnly, i)]
    ensures FilledUpTo(t, total, positiveOnly, masses', states', i + 1)
  {
    forall k: nat | k < |t.masses|
      ensures ProgressAt(t, total, positiveOnly, masses'[k], states'[k], i + 1, k)
    {
      assert ProgressAt(t, total, positiveOnly, masses[k], states[k], i, k);
    }
  }

  lemma FilledWhenUsedUp(t: Tanks, total: real, positiveOnly: bool, masses: seq<real>, states: seq<int>, i: nat)
    requires t.Valid() && i <= |t.masses| && FilledUpTo(t, total, positiveOnly, masses, states, i)
    requires i < |t.masses| ==> Remaining(t, total, positiveOnly, i) <= 0.0
    ensures masses == MassesAfter(t, total, positiveOnly) && states == StatesAfter(t, total, positiveOnly)
    ensures Remaining(t, total, positiveOnly, i) == Overflow(t, total, positiveOnly)
  {
    forall k: nat | k < |t.masses|
      ensures FilledAt(t, total, positiveOnly, masses[k], states[k], k)
    {
      assert ProgressAt(t, total, positiveOnly, masses[k], states[k], i, k);
      if i <= k {
        UsedUp(t, total, positiveOnly, i, k);
      }
    }
    if i < |t.masses| {
      UsedUp(t, total, positiveOnly, i, |t.masses|);
    }
  }

  /** One tank: it takes what it can, and is marked once it is 99 % full. */
  method FillTank(left: real, i: nat, states: array<int>, masses: array<real>, capacities: array<real>, ghost t: Tanks, ghost total: real)
    returns (remaining: real)
    requires masses != capacities && states.Length == masses.Length == capacities.Length && i < masses.Length
    requires t.Valid() && t.caps == capacities[..] && left == Remaining(t, total, false, i) > 0.0
    requires FilledUpTo(t, total, false, masses[..], states[..], i)
    modifies states, masses
    ensures FilledUpTo(t, total, false, masses[..], states[..], i + 1) && remaining == Remaining(t, total, false, i + 1)
  {
    ghost var m, s := masses[..], states[..];
    assert ProgressAt(t, total, false, m[i], s[i], i, i);
    remaining := left;
    if states[i] == IDLE || states[i] == EMPTY {
      var available := capacities[i] - masses[i];
      var add := Least(remaining, available);
      masses[i] := masses[i] + add;
      remaining := remaining - add;
      if masses[i] >= capacities[i] * FULL_SHARE {
        states[i] := FULL;
      }
    }
    FilledStep(t, total, false, m, s, i, masses[..], states[..]);
  }

  method DistributeMassToTanks(total: real, states: array<int>, masses: array<real>, capacities: array<real>)
    returns (remaining: real)
    requires masses != capacities && states.Length == masses.Length == capacities.Length
    modifies states, masses
    ensures var t := Tanks(old(states[..]), old(masses[..]), capacities[..]);
      masses[..] == MassesAfter(t, total, false) && states[..] == StatesAfter(t, total, false)
      && remaining == Overflow(t, total, false)
  {
    remaining := total;
    ghost var t := Tanks(states[..], masses[..], capacities[..]);
    var i := 0;
    while i < masses.Length && remaining > 0.0
      invariant i <= masses.Length && t.caps == capacities[..] && remaining == Remaining(t, total, false, i)
      invariant FilledUpTo(t, total, false, masses[..], states[..], i)
    {
      remaining := FillTank(remaining, i, states, masses, capacities, t, total);
      i := i + 1;
    }
    FilledWhenUsedUp(t, total, false, masses[..], states[..], i);
  }

  /** One time step of production: everything produced is stored or overflows. */
  method SimulateFillingTimestep(rate: real, dt: real, states: array<int>, masses: array<real>, capacities: array<real>)
    returns (stored: real, overflow: real)
    requires masses != capacities && states.Length == masses.Length == capacities.Length
    modifies states, masses
    ensures var t := Tanks(old(states[..]), old(masses[..]), capacities[..]);
      masses[..] == MassesAfter(t, rate * dt, false) && states[..] == StatesAfter(t, rate * dt, false)
      && overflow == Overflow(t, rate * dt, false) && stored == Sum(masses[..]) - Sum(old(masses[..]))
  {
    var production := rate * dt;
    MassIsConserved(Tanks(states[..], masses[..], capacities[..]), production, false);
    overflow := DistributeMassToTanks(production, states, masses, capacities);
    stored := production - overflow;
  }

  // ----- temperatures

  datatype Feed = Feed(temperature: real, gamma: real)

  /** The temperature after `add` came in: adiabatic mixing, and a clamp for a tank that was empty. */
  function Mixed(m: real, t: real, add: real, feed: Feed): real
    requires add > 0.0
  {
    if m > 0.0 then (m * t + add * feed.gamma * feed.temperature) / (m + add)
    else Least(feed.gamma * feed.temperature, T_MAX)
  }

  function TempAfter(t: Tanks, temps: seq<real>, total: real, feed: Feed, i: nat): real
    requires t.Valid() && |temps| == |t.masses| && i < |temps|
  {
    var add := Added(t, total, true, i);
    if add > 0.0 then Mixed(t.masses[i], temps[i], add, feed) else temps[i]
  }

  /** An empty tank takes over the feed's stagnation temperature, up to 500 K. */
  lemma EmptyTankIsClampedIff(t: Tanks, temps: seq<real>, total: real, feed: Feed, i: nat)
    requires t.Valid() && |temps| == |t.masses| && i < |temps| && t.masses[i] <= 0.0 && Added(t, total, true, i) > 0.0
    ensures TempAfter(t, temps, total, feed, i) <= 500.0
    ensures TempAfter(t, temps, total, feed, i) == feed.gamma * feed.temperature <==> feed.gamma * feed.temperature <= 500.0
  {
  }

  function TempsAfter(t: Tanks, temps: seq<real>, total: real, feed: Feed): (r: seq<real>)
    requires t.Valid() && |temps| == |t.masses|
    ensures |r| == |temps|
  {
    seq(|temps|, i requires 0 <= i < |temps| => TempAfter(t, temps, total, feed, i))
  }

  predicate HeatedUpTo(t: Tanks, temps: seq<real>, total: real, feed: Feed, temps': seq<real>, i: nat)
    requires t.Valid() && |temps| == |t.masses|
  {
    |temps'| == |temps| && forall k: nat | k < |temps| :: HeatedAt(t, temps, total, feed, temps'[k], i, k)
  }

  predicate HeatedAt(t: Tanks, temps: seq<real>, total: real, feed: Feed, temp: real, i: nat, k: nat)
    requires t.Valid() && |temps| == |t.masses| && k < |temps|
  {
    temp == if k < i then TempAfter(t, temps, total, feed, k) else temps[k]
  }

  lemma HeatedStep(t: Tanks, temps: seq<real>, total: real, feed: Feed, before: seq<real>, i: nat, after: seq<real>)
    requires t.Valid() && |temps| == |t.masses| && i < |temps| && HeatedUpTo(t, temps, total, feed, before, i)
    requires after == before[i := TempAfter(t, temps, total, feed, i)]
    ensures HeatedUpTo(t, temps, total, feed, after, i + 1)
  {
    forall k: nat | k < |temps|
      ensures HeatedAt(t, temps, total, feed, after[k], i + 1, k)
    {
      assert HeatedAt(t, temps, total, feed, before[k], i, k);
    }
  }

  lemma HeatedWhenUsedUp(t: Tanks, temps: seq<real>, total: real, feed: Feed, after: seq<real>, i: nat)
    requires t.Valid() && |temps| == |t.masses| && i <= |temps| && HeatedUpTo(t, temps, total, feed, after, i)
    requires i < |temps| ==> Remaining(t, total, true, i) <= 0.0
    ensures after == TempsAfter(t, temps, total, feed)
  {
    forall k: nat | k < |temps|
      ensures after[k] == TempAfter(t, temps, total, feed, k)
    {
      assert HeatedAt(t, temps, total, feed, after[k], i, k);
      if i <= k {
        UsedUp(t, total, true, i, k);
      }
    }
  }

  /** What one tank takes, and that only a tank that takes something changes. */
  method Share(left: real, i: nat, states: array<int>, masses: array<real>, capacities: array<real>, ghost t: Tanks, ghost total: real)
    returns (add: real)
    requires states.Length == masses.Length == capacities.Length && i < masses.Length
    requires t.Valid() && t.caps == capacities[..] && left == Remaining(t, total, true, i) > 0.0
    requires |t.masses| == masses.Length && masses[i] == t.masses[i] && states[i] == t.states[i]
    ensures add == Added(t, total, true, i) >= 0.0
    ensures add > 0.0 <==> Reached(t, total, true, i) && t.Free(i) > 0.0
  {
    add := 0.0;
    if states[i] == IDLE || states[i] == EMPTY {
      var available := capacities[i] - masses[i];
      add := Largest(0.0, Least(left, available));
    }
  }

  /** One tank of the variant that mixes temperatures. */
  method FillAndMix(left: real, feed: Feed, i: nat, states: array<int>, masses: array<real>, temperatures: array<real>,
                    capacities: array<real>, ghost t: Tanks, ghost temps: seq<real>, ghost total: real)
    returns (remaining: real)
    requires masses != capacities && temperatures != capacities && masses != temperatures && i < masses.Length
    requires states.Length == masses.Length == temperatures.Length == capacities.Length == |temps|
    requires t.Valid() && t.caps == capacities[..] && left == Remaining(t, total, true, i) > 0.0
    requires FilledUpTo(t, total, true, masses[..], states[..], i) && HeatedUpTo(t, temps, total, feed, temperatures[..], i)
    modifies states, masses, temperatures
    ensures FilledUpTo(t, total, true, masses[..], states[..], i + 1) && HeatedUpTo(t, temps, total, feed, temperatures[..], i + 1)
    ensures remaining == Remaining(t, total, true, i + 1)
  {
    ghost var m, s, before := masses[..], states[..], temperatures[..];
    assert ProgressAt(t, total, true, m[i], s[i], i, i) && HeatedAt(t, temps, total, feed, before[i], i, i);
    var add := Share(left, i, states, masses, capacities, t, total);
    remaining := left - add;
    if add > 0.0 {
      temperatures[i] := Mixed(masses[i], temperatures[i], add, feed);
      masses[i] := masses[i] + add;
      if masses[i] >= capacities[i] * FULL_SHARE {
        states[i] := FULL;
      }
    }
    FilledStep(t, total, true, m, s, i, masses[..], states[..]);
    HeatedStep(t, temps, total, feed, before, i, temperatures[..]);
  }

  method DistributeMassAndEnergy(total: real, feed: Feed, states: array<int>, masses: array<real>,
                                 temperatures: array<real>, capacities: array<real>) returns (remaining: real)
    requires masses != capacities && temperatures != capacities && masses != temperatures
    requires states.Length == masses.Length == temperatures.Length == capacities.Length
    modifies states, masses, temperatures
    ensures var t := Tanks(old(states[..]), old(masses[..]), capacities[..]);
      masses[..] == MassesAfter(t, total, true) && states[..] == StatesAfter(t, total, true)
      && temperatures[..] == TempsAfter(t, old(temperatures[..]), total, feed) && remaining == Overflow(t, total, true)
  {
    remaining := total;
    ghost var t := Tanks(states[..], masses[..], capacities[..]);
    ghost var temps := temperatures[..];
    var i := 0;
    while i < masses.Length && remaining > 0.0
      invariant i <= masses.Length && t.caps == capacities[..] && remaining == Remaining(t, total, true, i)
      invariant FilledUpTo(t, total, true, masses[..], states[..], i)
      invariant HeatedUpTo(t, temps, total, feed, temperatures[..], i)
    {
      remaining := FillAndMix(remaining, feed, i, states, masses, temperatures, capacities, t, temps, total);
      i := i + 1;
    }
    FilledWhenUsedUp(t, total, true, masses[..], states[..], i);
    HeatedWhenUsedUp(t, temps, total, feed, temperatures[..], i);
  }

  // ----- energy, in units of the heat capacity

  function Heats(masses: seq<real>, temps: seq<real>): (r: seq<real>)
    requires |masses| == |temps|
    ensures |r| == |temps|
  {
    seq(|temps|, i requires 0 <= i < |temps| => masses[i] * temps[i])
  }

  /** What the clamp takes away: only from a tank that was empty, and only from a hot feed. */
  predicate ClippedAt(t: Tanks, total: real, feed: Feed, i: nat)
    requires t.Valid() && i < |t.masses|
  {
    Added(t, total, true, i) > 0.0 && t.masses[i] <= 0.0 && feed.gamma * feed.temperature > T_MAX
  }

  function Clipped(t: Tanks, total: real, feed: Feed, i: nat): real
    requires t.Valid() && i < |t.masses|
  {
    if ClippedAt(t, total, feed, i) then Added(t, total, true, i) * (feed.gamma * feed.temperature - T_MAX) else 0.0
  }

  function Clips(t: Tanks, total: real, feed: Feed): (r: seq<real>)
    requires t.Valid()
    ensures |r| == |t.masses|
  {
    seq(|t.masses|, i requires 0 <= i < |t.masses| => Clipped(t, total, feed, i))
  }

  lemma MixedHeat(m: real, t: real, add: real, feed: Feed)
    requires add > 0.0 && m >= 0.0
    ensures m > 0.0 || feed.gamma * feed.temperature <= T_MAX
            ==> (m + add) * Mixed(m, t, add, feed) == m * t + add * feed.gamma * feed.temperature
    ensures m == 0.0 && feed.gamma * feed.temperature > T_MAX ==> (m + add) * Mixed(m, t, add, feed) == m * t + add * T_MAX
  {
    if m > 0.0 {
      Quotient(m * t + add * feed.gamma * feed.temperature, m + add);
    }
  }

  predicate NoDebt(t: Tanks) {
    forall i | 0 <= i < |t.masses| :: t.masses[i] >= 0.0
  }

  lemma TankHeat(t: Tanks, temps: seq<real>, total: real, feed: Feed, i: nat)
    requires t.Valid() && |temps| == |t.masses| && i < |temps| && NoDebt(t)
    ensures MassAfter(t, total, true, i) * TempAfter(t, temps, total, feed, i)
            == t.masses[i] * temps[i] + Added(t, total, true, i) * (feed.gamma * feed.temperature) - Clipped(t, total, feed, i)
  {
    var add := Added(t, total, true, i);
    if add > 0.0 {
      MixedHeat(t.masses[i], temps[i], add, feed);
    }
  }

  /** What one kilogram of feed brings. */
  function Carried(feed: Feed): real {
    feed.gamma * feed.temperature
  }

  function Brought(t: Tanks, total: real, r: real): (b: seq<real>)
    requires t.Valid()
    ensures |b| == |t.masses|
  {
    seq(|t.masses|, i requires 0 <= i < |t.masses| => Product(Added(t, total, true, i), r))
  }

  lemma {:induction false} ProductOfSum(r: real, a: seq<real>, b: seq<real>)
    requires |a| == |b| && forall i | 0 <= i < |a| :: a[i] == Product(b[i], r)
    ensures Sum(a) == Product(r, Sum(b))
  {
    if a != [] {
      var k := |a| - 1;
      ProductOfSum(r, a[..k], b[..k]);
      Together(r, Sum(b[..k]), b[k]);
    }
  }

  lemma Together(r: real, x: real, y: real)
    ensures Product(r, x + y) == Product(r, x) + Product(y, r)
  {
  }

  lemma BroughtTotal(t: Tanks, total: real, r: real)
    requires t.Valid()
    ensures Sum(Brought(t, total, r)) == Product(r, total - Overflow(t, total, true))
  {
    ProductOfSum(r, Brought(t, total, r), Adds(t, total, true));
    AddsAreStored(t, total, true, |t.masses|);
    assert Adds(t, total, true)[..|t.masses|] == Adds(t, total, true);
  }

  lemma {:induction false} AddsAreStored(t: Tanks, total: real, positiveOnly: bool, k: nat)
    requires t.Valid() && k <= |t.masses|
    ensures Sum(Adds(t, total, positiveOnly)[..k]) == total - Remaining(t, total, positiveOnly, k)
  {
    if k > 0 {
      AddsAreStored(t, total, positiveOnly, k - 1);
      assert Adds(t, total, positiveOnly)[..k][..k - 1] == Adds(t, total, positiveOnly)[..k - 1];
    }
  }

  predicate AddsUpAt(a: seq<real>, b: seq<real>, c: seq<real>, d: seq<real>, i: nat)
    requires i < |a| == |b| == |c| == |d|
  {
    a[i] + b[i] == c[i] + d[i]
  }

  lemma {:induction false} SumsAddUp(a: seq<real>, b: seq<real>, c: seq<real>, d: seq<real>)
    requires |a| == |b| == |c| == |d| && forall i: nat | i < |a| :: AddsUpAt(a, b, c, d, i)
    ensures Sum(a) + Sum(b) == Sum(c) + Sum(d)
  {
    if a != [] {
      var k := |a| - 1;
      forall i: nat | i < k
        ensures AddsUpAt(a[..k], b[..k], c[..k], d[..k], i)
      {
        assert AddsUpAt(a, b, c, d, i);
      }
      SumsAddUp(a[..k], b[..k], c[..k], d[..k]);
      assert AddsUpAt(a, b, c, d, k);
    }
  }

  lemma TanksAddUp(t: Tanks, temps: seq<real>, total: real, feed: Feed)
    requires t.Valid() && |temps| == |t.masses| && NoDebt(t)
    ensures Sum(Heats(MassesAfter(t, total, true), TempsAfter(t, temps, total, feed))) + Sum(Clips(t, total, feed))
            == Sum(Heats(t.masses, temps)) + Sum(Brought(t, total, Carried(feed)))
  {
    var after, before := Heats(MassesAfter(t, total, true), TempsAfter(t, temps, total, feed)), Heats(t.masses, temps);
    forall i: nat | i < |temps|
      ensures AddsUpAt(after, Clips(t, total, feed), before, Brought(t, total, Carried(feed)), i)
    {
      TankHeat(t, temps, total, feed, i);
    }
    SumsAddUp(after, Clips(t, total, feed), before, Brought(t, total, Carried(feed)));
  }

  /** The tanks gain what the stored feed carries, less what the clamp takes away. */
  lemma HeatGrows(t: Tanks, temps: seq<real>, total: real, feed: Feed)
    requires t.Valid() && |temps| == |t.masses| && NoDebt(t)
    ensures Sum(Heats(MassesAfter(t, total, true), TempsAfter(t, temps, total, feed))) + Sum(Clips(t, total, feed))
            == Sum(Heats(t.masses, temps)) + Product(Carried(feed), total - Overflow(t, total, true))
  {
    TanksAddUp(t, temps, total, feed);
    BroughtTotal(t, total, Carried(feed));
  }

  lemma {:induction false} SumIsZeroIff(a: seq<real>)
    requires forall i | 0 <= i < |a| :: a[i] >= 0.0
    ensures Sum(a) >= 0.0 && (Sum(a) == 0.0 <==> forall i | 0 <= i < |a| :: a[i] == 0.0)
  {
    if a != [] {
      SumIsZeroIff(a[..|a| - 1]);
    }
  }

  lemma ClippedSign(t: Tanks, total: real, feed: Feed, i: nat)
    requires t.Valid() && i < |t.masses|
    ensures Clipped(t, total, feed, i) >= 0.0 && (Clipped(t, total, feed, i) > 0.0 <==> ClippedAt(t, total, feed, i))
  {
    if ClippedAt(t, total, feed, i) {
      var add, excess := Added(t, total, true, i), Carried(feed) - T_MAX;
      ScaleLt(add, 0.0, excess);
      assert Clipped(t, total, feed, i) == add * excess;
    }
  }

  /** Energy is conserved exactly when no empty tank is filled from a feed hotter than the clamp. */
  lemma HeatIsConservedIff(t: Tanks, temps: seq<real>, total: real, feed: Feed)
    requires t.Valid() && |temps| == |t.masses| && NoDebt(t)
    ensures Sum(Heats(MassesAfter(t, total, true), TempsAfter(t, temps, total, feed)))
              == Sum(Heats(t.masses, temps)) + Product(Carried(feed), total - Overflow(t, total, true))
            <==> forall i: nat | i < |t.masses| :: !ClippedAt(t, total, feed, i)
  {
    HeatGrows(t, temps, total, feed);
    var clips := Clips(t, total, feed);
    forall i: nat | i < |clips|
      ensures clips[i] >= 0.0 && (clips[i] == 0.0 <==> !ClippedAt(t, total, feed, i))
    {
      ClippedSign(t, total, feed, i);
    }
    SumIsZeroIff(clips);
  }
}
