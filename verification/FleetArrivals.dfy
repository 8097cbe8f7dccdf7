/** Where an order is reported as arrived: at its target exactly if the drop-off leg was granted or the AMR already
    stood there. */
module FleetArrivals {
  import opened Wrappers
  import opened SpaceTime
  import opened FleetJobs

  /** A time step and the breakdown that it may bring. */
  datatype Tick = Tick(dt: real, failure: Option<real>)

  /** Steps of one AMR, none of which plans. */
  predicate IsDrive(states: seq<Amr>, ticks: seq<Tick>, stationOf: string -> Option<Cell>) {
    |states| == |ticks| + 1 && forall k: nat | k < |ticks| :: DriveAt(states, ticks, stationOf, k)
  }

  predicate DriveAt(states: seq<Amr>, ticks: seq<Tick>, stationOf: string -> Option<Cell>, k: nat)
    requires |states| == |ticks| + 1 && k < |ticks|
  {
    !PlansNow(states[k], ticks[k].failure) && states[k + 1] == StepAmr(states[k], ticks[k].dt, ticks[k].failure, stationOf, None).0
  }

  /** The same job, stops and queue. */
  predicate SameJob(a: Amr, b: Amr) {
    && b.id == a.id && b.home == a.home && b.carrying == a.carrying && b.pending == a.pending
    && b.destinations == a.destinations && b.pendingDest == a.pendingDest && b.queue == a.queue
  }

  /** The same leg, with the part of the path from `start` already driven that its index says. */
  predicate OnLeg(a: Amr, b: Amr, start: Cell) {
    b.path == a.path && b.pathIndex <= |b.path| && b.pos == Position(start, b.path, b.pathIndex)
  }

  lemma StepKeepsJob(a: Amr, dt: real, failure: Option<real>, stationOf: string -> Option<Cell>)
    requires !PlansNow(a, failure)
    ensures SameJob(a, StepAmr(a, dt, failure, stationOf, None).0)
  {
  }

  lemma StepKeepsLeg(a: Amr, b: Amr, start: Cell, dt: real, failure: Option<real>, stationOf: string -> Option<Cell>)
    requires OnLeg(a, b, start) && !PlansNow(b, failure)
    ensures OnLeg(a, StepAmr(b, dt, failure, stationOf, None).0, start)
  {
  }

  lemma {:induction false} DriveKeepsJob(states: seq<Amr>, ticks: seq<Tick>, stationOf: string -> Option<Cell>, k: nat)
    requires IsDrive(states, ticks, stationOf) && k <= |ticks|
    ensures SameJob(states[0], states[k])
  {
    if k > 0 {
      DriveKeepsJob(states, ticks, stationOf, k - 1);
      assert DriveAt(states, ticks, stationOf, k - 1);
      StepKeepsJob(states[k - 1], ticks[k - 1].dt, ticks[k - 1].failure, stationOf);
    }
  }

  lemma {:induction false} DriveKeepsLeg(states: seq<Amr>, ticks: seq<Tick>, stationOf: string -> Option<Cell>, start: Cell, k: nat)
    requires IsDrive(states, ticks, stationOf) && k <= |ticks| && OnLeg(states[0], states[0], start)
    ensures OnLeg(states[0], states[k], start)
  {
    if k > 0 {
      DriveKeepsLeg(states, ticks, stationOf, start, k - 1);
      assert DriveAt(states, ticks, stationOf, k - 1);
      StepKeepsLeg(states[0], states[k - 1], start, ticks[k - 1].dt, ticks[k - 1].failure, stationOf);
    }
  }

  /** The planner's answer for the drop-off leg, null or empty ones included. */
  predicate Granted(plan: Option<seq<Cell>>) {
    plan.Some? && plan.value != []
  }

  /** When it plans again, the AMR has its job as it was, and is at the end of the leg, or still where it started. */
  lemma LegEnds(b: Amr, stop: Option<string>, target: Cell, plan: Option<seq<Cell>>, states: seq<Amr>, ticks: seq<Tick>,
                failure: Option<real>, stationOf: string -> Option<Cell>)
    requires IsDrive(states, ticks, stationOf) && PlansNow(states[|ticks|], failure) && states[0] == TakePlan(b, stop, plan).0
    requires Granted(plan) ==> plan.value[|plan.value| - 1] == target
    ensures var e := states[|ticks|];
      && SameJob(b.(pendingDest := if Granted(plan) then b.pendingDest else stop), e)
      && e.pos == (if Granted(plan) then target else b.pos)
  {
    DriveKeepsJob(states, ticks, stationOf, |ticks|);
    DriveKeepsLeg(states, ticks, stationOf, b.pos, |ticks|);
  }

  /** An AMR that plans its drop-off leg: it carries the order and has no stop left after this one. */
  predicate PlansDropOff(a: Amr, stationOf: string -> Option<Cell>) {
    var b := Redirect(a, stationOf).0;
    b.carrying != "" && b.destinations == []
  }

  /** From planning the drop-off leg to the next time the AMR plans, whatever delays come in between: the order is then
      reported as arrived, granted or not, from the target's cell exactly if the leg was granted or started there. */
  lemma ArrivesAtTargetIff(a: Amr, plan: Option<seq<Cell>>, states: seq<Amr>, ticks: seq<Tick>, failure: Option<real>,
                           stationOf: string -> Option<Cell>)
    requires PlansDropOff(a, stationOf) && IsDrive(states, ticks, stationOf) && PlansNow(states[|ticks|], failure)
    requires var (b, stop, target) := Redirect(a, stationOf);
      states[0] == TakePlan(b, stop, plan).0 && (Granted(plan) ==> plan.value[|plan.value| - 1] == target)
    ensures var (b, _, target) := Redirect(a, stationOf); var e := states[|ticks|];
      && EndLeg(e).1 == [Arrived(a.id, b.carrying)] && EndLeg(e).0.status == UNLOADING
      && (e.pos == target <==> Granted(plan) || a.pos == target)
      && (!Granted(plan) ==> e.pos == a.pos)
  {
    var (b, stop, target) := Redirect(a, stationOf);
    assert b.id == a.id && b.pos == a.pos;
    LegEnds(b, stop, target, plan, states, ticks, failure, stationOf);
  }

  /** An AMR that plans the leg to its pickup: it has an order to fetch and one stop left after this one. */
  predicate PlansPickUp(a: Amr, stationOf: string -> Option<Cell>) {
    var b := Redirect(a, stationOf).0;
    b.pending != "" && b.carrying == "" && |b.destinations| == 1
  }

  /** The same for the pickup: the load is taken at the next planning step, from the pickup's cell exactly if the leg was
      granted or started there. */
  lemma PicksUpAtTargetIff(a: Amr, plan: Option<seq<Cell>>, states: seq<Amr>, ticks: seq<Tick>, failure: Option<real>,
                           stationOf: string -> Option<Cell>)
    requires PlansPickUp(a, stationOf) && IsDrive(states, ticks, stationOf) && PlansNow(states[|ticks|], failure)
    requires var (b, stop, target) := Redirect(a, stationOf);
      states[0] == TakePlan(b, stop, plan).0 && (Granted(plan) ==> plan.value[|plan.value| - 1] == target)
    ensures var (b, _, target) := Redirect(a, stationOf); var e := states[|ticks|];
      && EndLeg(e).0.carrying == b.pending && EndLeg(e).0.status == LOADING
      && (e.pos == target <==> Granted(plan) || a.pos == target)
      && (!Granted(plan) ==> e.pos == a.pos)
  {
    var (b, stop, target) := Redirect(a, stationOf);
    assert b.id == a.id && b.pos == a.pos;
    LegEnds(b, stop, target, plan, states, ticks, failure, stationOf);
  }
}
