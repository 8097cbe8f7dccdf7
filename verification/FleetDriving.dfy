/** How long an AMR takes: half a second of driving for each cell, the pause after a plan or a denial, the repair after a
    breakdown, and how often it may be denied. */
module FleetDriving {
  import opened Wrappers
  import opened SpaceTime
  import opened FleetJobs
  import opened FleetArrivals
  import Runs = FleetRuns

  /** The steps in which an AMR moves along its path. */
  predicate Drives(a: Amr, t: Tick) {
    a.downtime <= 0.0 && a.dwell <= 0.0 && !(a.status == MOVING && t.failure.Some?) && !AtEndOfPath(a)
  }

  predicate TimeGoesOn(ticks: seq<Tick>) {
    forall k: nat | k < |ticks| :: Lasts(ticks[k])
  }

  predicate Lasts(t: Tick) {
    t.dt >= 0.0 && (t.failure.Some? ==> t.failure.value >= 0.0)
  }

  /** The driving time of the first k steps. */
  ghost function DrivingTime(states: seq<Amr>, ticks: seq<Tick>, k: nat): real
    requires k <= |ticks| < |states|
  {
    if k == 0 then 0.0
    else DrivingTime(states, ticks, k - 1) + (if Drives(states[k - 1], ticks[k - 1]) then ticks[k - 1].dt else 0.0)
  }

  /** All the time of the first k steps. */
  ghost function Elapsed(ticks: seq<Tick>, k: nat): real
    requires k <= |ticks|
  {
    if k == 0 then 0.0 else Elapsed(ticks, k - 1) + ticks[k - 1].dt
  }

  // ----- driving

  /** What one step adds: at most one cell, paid for with half a second of driving. */
  lemma StepTakesTime(a: Amr, t: Tick, stationOf: string -> Option<Cell>)
    requires !PlansNow(a, t.failure) && t.dt >= 0.0
    ensures var b := StepAmr(a, t.dt, t.failure, stationOf, None).0; var spent := if Drives(a, t) then t.dt else 0.0;
      && a.pathIndex <= b.pathIndex <= a.pathIndex + 1
      && 0.5 * ((b.pathIndex - a.pathIndex) as real + b.progress - a.progress) <= spent
      && (b.pathIndex > a.pathIndex ==> b.progress == 0.0)
      && (b.pathIndex > a.pathIndex <==> Drives(a, t) && spent >= 0.5 * (1.0 - a.progress))
      && (b.pathIndex == a.pathIndex ==> b.progress == a.progress + 2.0 * spent)
      && (Drives(a, t) ==> b.next == a.path[a.pathIndex] && b.status == MOVING)
  {
  }

  /** Every cell entered costs half a second of driving, but for what was already driven towards the first one. */
  lemma {:induction false} CellsTakeTime(states: seq<Amr>, ticks: seq<Tick>, stationOf: string -> Option<Cell>, k: nat)
    requires IsDrive(states, ticks, stationOf) && TimeGoesOn(ticks) && k <= |ticks|
    ensures states[0].pathIndex <= states[k].pathIndex
    ensures 0.5 * ((states[k].pathIndex - states[0].pathIndex) as real + states[k].progress)
         <= DrivingTime(states, ticks, k) + 0.5 * states[0].progress
  {
    if k > 0 {
      CellsTakeTime(states, ticks, stationOf, k - 1);
      assert DriveAt(states, ticks, stationOf, k - 1) && Lasts(ticks[k - 1]);
      StepTakesTime(states[k - 1], ticks[k - 1], stationOf);
    }
  }

  /** The next cell is entered in exactly the first step in which the driving time since the step i reaches what is left of
      half a second; right after an entry that is all of it. */
  lemma {:induction false} EntersWhenDueIff(states: seq<Amr>, ticks: seq<Tick>, stationOf: string -> Option<Cell>, i: nat, k: nat)
    requires IsDrive(states, ticks, stationOf) && TimeGoesOn(ticks) && i <= k <= |ticks| && states[i].progress < 1.0
    ensures states[k].pathIndex > states[i].pathIndex
        <==> DrivingTime(states, ticks, k) - DrivingTime(states, ticks, i) >= 0.5 * (1.0 - states[i].progress)
    ensures states[k].pathIndex >= states[i].pathIndex && DrivingTime(states, ticks, k) >= DrivingTime(states, ticks, i)
    ensures states[k].pathIndex == states[i].pathIndex
        ==> states[k].progress == states[i].progress + 2.0 * (DrivingTime(states, ticks, k) - DrivingTime(states, ticks, i))
    decreases k
  {
    if k > i {
      EntersWhenDueIff(states, ticks, stationOf, i, k - 1);
      assert DriveAt(states, ticks, stationOf, k - 1) && Lasts(ticks[k - 1]);
      StepTakesTime(states[k - 1], ticks[k - 1], stationOf);
    }
  }

  /** Where the AMR is: at the cell of its path that was entered last. */
  lemma NextCellIff(states: seq<Amr>, ticks: seq<Tick>, stationOf: string -> Option<Cell>, i: nat, k: nat)
    requires IsDrive(states, ticks, stationOf) && TimeGoesOn(ticks) && 0 < i <= k <= |ticks|
    requires states[i].pathIndex > states[i - 1].pathIndex && OnLeg(states[0], states[0], states[0].pos) && states[0].pathIndex == 0
    ensures states[k].pathIndex > states[i].pathIndex <==> DrivingTime(states, ticks, k) - DrivingTime(states, ticks, i) >= 0.5
    ensures states[k].pathIndex <= |states[0].path| && states[k].pos == Position(states[0].pos, states[0].path, states[k].pathIndex)
  {
    assert DriveAt(states, ticks, stationOf, i - 1) && Lasts(ticks[i - 1]);
    StepTakesTime(states[i - 1], ticks[i - 1], stationOf);
    EntersWhenDueIff(states, ticks, stationOf, i, k);
    DriveKeepsLeg(states, ticks, stationOf, states[0].pos, k);
  }

  /** A granted trajectory is followed cell by cell, with the job as it was, until the AMR stands
      at its end and plans again. */
  lemma TrajectoryIsFollowed(a: Amr, path: seq<Cell>, states: seq<Amr>, ticks: seq<Tick>, failure: Option<real>,
                             stationOf: string -> Option<Cell>, k: nat)
    requires IsDrive(states, ticks, stationOf) && states[0] == Runs.Perform(a, Runs.Directing(path)) && k <= |ticks|
    ensures SameJob(a, states[k]) && states[k].pathIndex <= |path| && states[k].pos == Position(a.pos, path, states[k].pathIndex)
    ensures PlansNow(states[k], failure) ==> states[k].pos == Position(a.pos, path, |path|)
  {
    DriveKeepsJob(states, ticks, stationOf, k);
    DriveKeepsLeg(states, ticks, stationOf, a.pos, k);
  }

  // ----- pauses and repairs

  /** An AMR that pauses does nothing else until the pause is over, and then it goes on. */
  lemma {:induction false} PausesUntil(states: seq<Amr>, ticks: seq<Tick>, stationOf: string -> Option<Cell>, k: nat)
    requires IsDrive(states, ticks, stationOf) && TimeGoesOn(ticks) && k <= |ticks|
    requires states[0].downtime <= 0.0 && states[0].status != MOVING
    requires k > 0 ==> Elapsed(ticks, k - 1) < states[0].dwell
    ensures states[k] == states[0].(dwell := states[0].dwell - Elapsed(ticks, k))
  {
    if k > 0 {
      assert Lasts(ticks[k - 1]) && DriveAt(states, ticks, stationOf, k - 1);
      if k > 1 {
        assert Lasts(ticks[k - 2]);
      }
      PausesUntil(states, ticks, stationOf, k - 1);
    }
  }

  /** A broken down AMR stays as it is until its repair time is over; the step that reaches it leaves it idle. */
  lemma {:induction false} DownUntil(states: seq<Amr>, ticks: seq<Tick>, stationOf: string -> Option<Cell>, k: nat)
    requires IsDrive(states, ticks, stationOf) && TimeGoesOn(ticks) && k <= |ticks| && states[0].downtime > 0.0
    requires k > 0 ==> Elapsed(ticks, k - 1) < states[0].downtime
    ensures states[k] == if Elapsed(ticks, k) < states[0].downtime
                         then states[0].(downtime := states[0].downtime - Elapsed(ticks, k))
                         else states[0].(downtime := 0.0, status := IDLE)
  {
    if k > 0 {
      assert Lasts(ticks[k - 1]) && DriveAt(states, ticks, stationOf, k - 1);
      if k > 1 {
        assert Lasts(ticks[k - 2]);
      }
      DownUntil(states, ticks, stationOf, k - 1);
    }
  }

  /** After a plan the AMR rests for 0.6 s, after a denial for 1 s: it drives or plans again in exactly the first step that
      begins when this time has passed. */
  lemma RestsIff(b: Amr, stop: Option<string>, plan: Option<seq<Cell>>, states: seq<Amr>, ticks: seq<Tick>, k: nat,
                 t: Tick, stationOf: string -> Option<Cell>)
    requires IsDrive(states, ticks, stationOf) && TimeGoesOn(ticks) && k <= |ticks|
    requires states[0] == TakePlan(b, stop, plan).0 && b.downtime <= 0.0 && b.status != MOVING
    requires k > 0 ==> Elapsed(ticks, k - 1) < if Granted(plan) then 0.6 else 1.0
    ensures Drives(states[k], t) || PlansNow(states[k], t.failure)
        <==> Elapsed(ticks, k) >= if Granted(plan) then 0.6 else 1.0
    ensures Elapsed(ticks, k) < (if Granted(plan) then 0.6 else 1.0) ==> states[k].pos == b.pos && states[k].status == states[0].status
  {
    PausesUntil(states, ticks, stationOf, k);
  }

  /** A breakdown keeps the AMR blocked where it is for its repair time; the step that reaches it sets it free again, with
      its job, its path and its pause as they were. */
  lemma RepairTakes(a: Amr, seconds: real, states: seq<Amr>, ticks: seq<Tick>, k: nat, stationOf: string -> Option<Cell>)
    requires IsDrive(states, ticks, stationOf) && TimeGoesOn(ticks) && k <= |ticks|
    requires states[0] == BreakDown(a, seconds) && seconds > 0.0 && (k > 0 ==> Elapsed(ticks, k - 1) < seconds)
    ensures states[k] == a.(status := if Elapsed(ticks, k) < seconds then BLOCKED else IDLE,
                            downtime := if Elapsed(ticks, k) < seconds then seconds - Elapsed(ticks, k) else 0.0)
  {
    DownUntil(states, ticks, stationOf, k);
  }

  /** The least time an AMR still needs before it plans again. */
  function Remaining(a: Amr): real {
    (if a.dwell > 0.0 then a.dwell else 0.0)
    + (if a.downtime > 0.0 then a.downtime else 0.0)
    + (if AtEndOfPath(a) then 0.0 else 0.5 * ((|a.path| - a.pathIndex) as real - a.progress))
  }

  lemma StepTakesRemaining(a: Amr, t: Tick, stationOf: string -> Option<Cell>)
    requires !PlansNow(a, t.failure) && Lasts(t)
    ensures Remaining(a) - t.dt <= Remaining(StepAmr(a, t.dt, t.failure, stationOf, None).0)
  {
  }

  lemma {:induction false} RemainingPasses(states: seq<Amr>, ticks: seq<Tick>, stationOf: string -> Option<Cell>, k: nat)
    requires IsDrive(states, ticks, stationOf) && TimeGoesOn(ticks) && k <= |ticks|
    ensures Remaining(states[0]) - Elapsed(ticks, k) <= Remaining(states[k])
  {
    if k > 0 {
      RemainingPasses(states, ticks, stationOf, k - 1);
      assert DriveAt(states, ticks, stationOf, k - 1) && Lasts(ticks[k - 1]);
      StepTakesRemaining(states[k - 1], ticks[k - 1], stationOf);
    }
  }

  /** From one planning to the next: a granted leg takes 0.6 s and half a second for each cell, whatever breaks down in
      between, and a denied one is not tried again within a second. */
  lemma LegTakes(b: Amr, stop: Option<string>, plan: Option<seq<Cell>>, states: seq<Amr>, ticks: seq<Tick>,
                 failure: Option<real>, stationOf: string -> Option<Cell>)
    requires IsDrive(states, ticks, stationOf) && TimeGoesOn(ticks) && PlansNow(states[|ticks|], failure)
    requires states[0] == TakePlan(b, stop, plan).0
    ensures Elapsed(ticks, |ticks|) >= if Granted(plan) then 0.6 + 0.5 * (|plan.value| as real - b.progress) else 1.0
  {
    RemainingPasses(states, ticks, stationOf, |ticks|);
  }

  // ----- denials and deliveries

  /** One call of `stepAMR()`: the tick and the planner's answer, if it comes to that. */
  datatype Call = Call(tick: Tick, plan: Option<seq<Cell>>)
  {
    function Step(a: Amr, stationOf: string -> Option<Cell>): (Amr, seq<Signal>) {
      StepAmr(a, tick.dt, tick.failure, stationOf, plan)
    }

    predicate Denies(a: Amr) {
      PlansNow(a, tick.failure) && !Granted(plan)
    }
  }

  function After(a: Amr, calls: seq<Call>, stationOf: string -> Option<Cell>): Amr {
    if calls == [] then a
    else var n := |calls| - 1; calls[n].Step(After(a, calls[..n], stationOf), stationOf).0
  }

  /** The denials since the last granted plan, counted over the calls. */
  function Denials(a: Amr, calls: seq<Call>, stationOf: string -> Option<Cell>): nat {
    if calls == [] then 0
    else
      var n := |calls| - 1;
      var b := After(a, calls[..n], stationOf);
      var before := Denials(a, calls[..n], stationOf);
      if !PlansNow(b, calls[n].tick.failure) then before else if Granted(calls[n].plan) then 0 else before + 1
  }

  /** All deliveries reported over the calls. */
  function Deliveries(a: Amr, calls: seq<Call>, stationOf: string -> Option<Cell>): multiset<string> {
    if calls == [] then multiset{}
    else
      var n := |calls| - 1;
      Deliveries(a, calls[..n], stationOf) + ArrivedIn(calls[n].Step(After(a, calls[..n], stationOf), stationOf).1)
  }

  predicate AsksForHelp(signals: seq<Signal>) {
    exists k | 0 <= k < |signals| :: signals[k].TransportBlocked?
  }

  lemma EndLegCounts(a: Amr)
    ensures EndLeg(a).0.completed == a.completed + |ArrivedIn(EndLeg(a).1)| && !AsksForHelp(EndLeg(a).1)
    ensures EndLeg(a).0.blockedTicks == a.blockedTicks
  {
    assert ArrivedIn([Arrived(a.id, a.carrying)]) == multiset{a.carrying} + ArrivedIn([]);
  }

  lemma RedirectCounts(a: Amr, stationOf: string -> Option<Cell>)
    ensures Redirect(a, stationOf).0.completed == EndLeg(a).0.completed
    ensures Redirect(a, stationOf).0.blockedTicks == EndLeg(a).0.blockedTicks
  {
  }

  lemma TakePlanCounts(a: Amr, stop: Option<string>, plan: Option<seq<Cell>>)
    ensures var (b, signals) := TakePlan(a, stop, plan);
      && b.completed == a.completed && b.blockedTicks == (if Granted(plan) then 0 else a.blockedTicks + 1)
      && (AsksForHelp(signals) <==> !Granted(plan) && a.blockedTicks == 2)
  {
    if !Granted(plan) && a.blockedTicks == 2 {
      assert TakePlan(a, stop, plan).1[0].TransportBlocked?;
    }
  }

  lemma AskedInEither(s: seq<Signal>, t: seq<Signal>)
    ensures AsksForHelp(s + t) <==> AsksForHelp(s) || AsksForHelp(t)
  {
    forall k | 0 <= k < |t| ensures (s + t)[|s| + k] == t[k] {
    }
    forall k | 0 <= k < |s| ensures (s + t)[k] == s[k] {
    }
  }

  lemma StepCounts(a: Amr, c: Call, stationOf: string -> Option<Cell>)
    ensures var (b, signals) := c.Step(a, stationOf);
      && b.completed == a.completed + |ArrivedIn(signals)|
      && b.blockedTicks == (if !PlansNow(a, c.tick.failure) then a.blockedTicks else if Granted(c.plan) then 0 else a.blockedTicks + 1)
      && (AsksForHelp(signals) <==> c.Denies(a) && a.blockedTicks == 2)
  {
    if PlansNow(a, c.tick.failure) {
      var (b, stop, _) := Redirect(a, stationOf);
      EndLegCounts(a);
      RedirectCounts(a, stationOf);
      TakePlanCounts(b, stop, c.plan);
      TakePlanKeepsOrders(b, stop, c.plan);
      NoArrivals(EndLeg(a).1, TakePlan(b, stop, c.plan).1);
      AskedInEither(EndLeg(a).1, TakePlan(b, stop, c.plan).1);
    }
  }

  /** An AMR that was never denied: the completed jobs are the deliveries reported, and it asks for help at exactly the third
      denial in a row. */
  lemma {:induction false} HelpAtThirdDenialIff(a: Amr, calls: seq<Call>, c: Call, stationOf: string -> Option<Cell>)
    requires a.blockedTicks == 0
    ensures var b := After(a, calls, stationOf);
      && b.completed == a.completed + |Deliveries(a, calls, stationOf)|
      && b.blockedTicks == Denials(a, calls, stationOf)
      && (AsksForHelp(c.Step(b, stationOf).1) <==> c.Denies(b) && Denials(a, calls + [c], stationOf) == 3)
    decreases |calls|
  {
    var b := After(a, calls, stationOf);
    StepCounts(b, c, stationOf);
    assert (calls + [c])[..|calls|] == calls;
    if calls != [] {
      var n := |calls| - 1;
      HelpAtThirdDenialIff(a, calls[..n], calls[n], stationOf);
      StepCounts(After(a, calls[..n], stationOf), calls[n], stationOf);
    }
  }
}
