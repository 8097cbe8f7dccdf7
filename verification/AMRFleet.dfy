/** `AMRSim` and the fleet operations of `AMRArtifact`, proved against the functions of FleetJobs and FleetRuns and
    the relations of SpaceTime. The reservation table is the object of AMRPlanner. */
module AMRFleet {
  import opened Wrappers
  import opened SpaceTime
  import opened FleetJobs
  import opened FleetRuns
  import opened AMRPlanner
  import opened Decimals
  import RealAlgebra
  import Motion = FleetMotion
  import Runs = ReservationRuns

  class AMRSim {
    const amrId: string
    const home: Cell
    var cell: Cell
    var nextCell: Cell
    var progress: real
    var dwellRemaining: real
    var downtimeRemainingS: real
    var path: seq<Cell>
    var pathIndex: nat
    var status: Status
    var carryingOrderId: string
    var pendingOrderId: string
    var destinations: seq<string>
    var pendingDest: Option<string>
    var blockedTicks: nat
    var completedJobCount: nat
    var jobQueue: seq<Job>

    constructor (id: string, home: Cell, dwell: real)
      ensures View() == Amr(id, home, home, home, 0.0, dwell, 0.0, [], 0, IDLE, "", "", [], None, 0, 0, [])
    {
      this.amrId, this.home := id, home;
      cell, nextCell, progress := home, home, 0.0;
      dwellRemaining, downtimeRemainingS := dwell, 0.0;
      path, pathIndex, status := [], 0, IDLE;
      carryingOrderId, pendingOrderId, destinations, pendingDest := "", "", [], None;
      blockedTicks, completedJobCount, jobQueue := 0, 0, [];
    }

    function View(): Amr
      reads this
    {
      Amr(amrId, home, cell, nextCell, progress, dwellRemaining, downtimeRemainingS, path, pathIndex, status,
          carryingOrderId, pendingOrderId, destinations, pendingDest, blockedTicks, completedJobCount, jobQueue)
    }

    /** The cells the planner may start from. */
    predicate OnMap()
      reads this
    {
      cell.x >= 0 && cell.y >= 0 && home.x >= 0 && home.y >= 0 && AllNatural(path)
    }

    predicate Free()
      reads this
      ensures Free() <==> IsFree(View())
    {
      downtimeRemainingS <= 0.0 && carryingOrderId == "" && pendingOrderId == ""
    }

    method StartJob(job: Job)
      modifies this
      ensures View() == FleetJobs.StartJob(old(View()), job)
    {
      destinations := [];
      if job.fromStation.Some? && job.fromStation.value != "start" {
        destinations := destinations + [job.fromStation.value];
        carryingOrderId := "";
      } else {
        carryingOrderId := OrderOf(job);
      }
      destinations := destinations + [job.toStation];
      pendingOrderId := OrderOf(job);
      path := [];
      progress := 0.0;
    }

    method AcceptJob(job: Job)
      modifies this
      ensures View() == Accept(old(View()), job)
      ensures old(OnMap()) ==> OnMap()
    {
      if Free() {
        StartJob(job);
      } else {
        jobQueue := jobQueue + [job];
      }
    }

    method CancelOrder(order: string)
      modifies this
      ensures View() == Cancel(old(View()), order)
      ensures old(OnMap()) ==> OnMap()
    {
      ghost var was := View();
      jobQueue := WithoutOrder(jobQueue, order);
      assert View() == was.(queue := WithoutOrder(was.queue, order));
      if order == pendingOrderId || order == carryingOrderId {
        destinations, path, pathIndex := [], [], 0;
        carryingOrderId, pendingOrderId := "", "";
      }
    }

    method TriggerBreakdown(seconds: real)
      modifies this
      ensures View() == BreakDown(old(View()), seconds)
      ensures old(OnMap()) ==> OnMap()
    {
      status := BLOCKED;
      downtimeRemainingS := seconds;
    }

    method Follow(plan: seq<Cell>)
      requires AllNatural(plan)
      modifies this
      ensures View() == Perform(old(View()), Directing(plan))
      ensures old(OnMap()) ==> OnMap()
    {
      path := plan;
      pathIndex := 0;
    }

    // ----- the parts of stepAMR

    method Repair(dt: real)
      modifies this
      ensures View() == (if old(downtimeRemainingS) - dt <= 0.0 then old(View()).(downtime := 0.0, status := IDLE)
                         else old(View()).(downtime := old(downtimeRemainingS) - dt))
      ensures old(OnMap()) ==> OnMap()
    {
      downtimeRemainingS := downtimeRemainingS - dt;
      if downtimeRemainingS <= 0.0 {
        downtimeRemainingS := 0.0;
        status := IDLE;
      }
    }

    method FinishLeg() returns (signals: seq<Signal>)
      modifies this
      ensures (View(), signals) == EndLeg(old(View()))
      ensures cell == old(cell) && path == old(path)
    {
      signals := [];
      if carryingOrderId != "" && destinations == [] {
        signals := [Arrived(amrId, carryingOrderId)];
        carryingOrderId := "";
        pendingOrderId := "";
        completedJobCount := completedJobCount + 1;
        status := UNLOADING;
      } else if pendingOrderId != "" && carryingOrderId == "" && |destinations| == 1 {
        carryingOrderId := pendingOrderId;
        status := LOADING;
      } else {
        status := IDLE;
      }
    }

    method StartNext()
      modifies this
      ensures View() == StartQueued(old(View()))
      ensures cell == old(cell) && (path == old(path) || path == [])
    {
      if destinations == [] && Free() && jobQueue != [] {
        var job := jobQueue[0];
        jobQueue := jobQueue[1..];
        StartJob(job);
      }
    }

    method ChooseTarget(stationOf: string -> Option<Cell>) returns (stop: Option<string>, target: Cell)
      modifies this
      ensures stop == NextStop(old(View())).1
      ensures var b := NextStop(old(View())).0;
        (View(), target) == match (if stop.None? then None else stationOf(stop.value))
                            case Some(c) => (b, c)
                            case None => (b.(carrying := ""), home)
      ensures cell == old(cell) && path == old(path)
    {
      stop := None;
      if pendingDest.Some? {
        stop := pendingDest;
        pendingDest := None;
      } else if destinations != [] {
        stop := Some(destinations[0]);
        destinations := destinations[1..];
      }
      var station := if stop.Some? then stationOf(stop.value) else None;
      if station.Some? {
        target := station.value;
      } else {
        target := home;
        carryingOrderId := "";
      }
    }

    /** Everything that stepAMR does at the end of a path before it plans. */
    method PrepareLeg(stationOf: string -> Option<Cell>) returns (signals: seq<Signal>, stop: Option<string>, target: Cell)
      modifies this
      ensures (View(), stop, target) == Redirect(old(View()), stationOf) && signals == EndLeg(old(View())).1
      ensures cell == old(cell) && (old(OnMap()) ==> OnMap())
    {
      signals := FinishLeg();
      StartNext();
      stop, target := ChooseTarget(stationOf);
    }

    method TakeUp(stop: Option<string>, plan: Option<seq<Cell>>) returns (signals: seq<Signal>)
      requires OnMap() && (plan.Some? ==> AllNatural(plan.value))
      modifies this
      ensures (View(), signals) == TakePlan(old(View()), stop, plan) && OnMap()
    {
      ghost var was := View();
      signals := [];
      if plan.Some? && plan.value != [] {
        path := plan.value;
        pathIndex := 0;
        dwellRemaining := 0.6;
        blockedTicks := 0;
        assert View() == was.(path := plan.value, pathIndex := 0, dwell := 0.6, blockedTicks := 0);
      } else {
        pendingDest := stop;
        blockedTicks := blockedTicks + 1;
        status := BLOCKED;
        path := [];
        pathIndex := 0;
        dwellRemaining := 1.0;
        if blockedTicks == 3 {
          signals := [TransportBlocked(amrId, carryingOrderId)];
        }
      }
    }

    method Drive(dt: real)
      requires OnMap() && pathIndex < |path|
      modifies this
      ensures View() == Advance(old(View()), dt) && OnMap()
    {
      nextCell := path[pathIndex];
      status := MOVING;
      progress := progress + dt / SEC_PER_CELL;
      if progress >= 1.0 {
        cell := nextCell;
        progress := 0.0;
        pathIndex := pathIndex + 1;
      }
    }
  }

  method InitFleet(rows: nat, count: nat) returns (fleet: seq<AMRSim>)
    ensures |fleet| == count && fresh(fleet)
    ensures forall i, j | 0 <= i < j < count :: fleet[i] != fleet[j]
    ensures forall i | 0 <= i < count :: fleet[i].View() == InitialAmr(rows, i) && (fleet[i].OnMap() <==> rows > 0)
  {
    fleet := [];
    for i := 0 to count
      invariant |fleet| == i && fresh(fleet)
      invariant forall j, k | 0 <= j < k < i :: fleet[j] != fleet[k]
      invariant forall j | 0 <= j < i :: fleet[j].View() == InitialAmr(rows, j) && (fleet[j].OnMap() <==> rows > 0)
    {
      var a := new AMRSim("AMR-" + Decimal(i + 1), Cell(1 + i, rows - 1), 1.0 + i as real * 0.6);
      fleet := fleet + [a];
    }
  }

  class AMRArtifact {
    const table: ReservationTable
    const fleet: seq<AMRSim>
    const stationOf: string -> Option<Cell>  // station names and cells

    constructor (cols: nat, rows: nat, count: nat, stationOf: string -> Option<Cell>)
      ensures this.stationOf == stationOf && fresh(table) && fresh(table.reservedBy) && fresh(fleet)
      ensures Amrs() == InitialAmrs(rows, count) && table.Valid() && (Valid() <==> rows > 0 || count == 0)
      ensures table.View() == Tables(cols, rows, cols + rows + 4, map[], iset{})
    {
      table := new ReservationTable(cols, rows);
      var sims := InitFleet(rows, count);
      fleet := sims;
      this.stationOf := stationOf;
      assert count > 0 ==> (sims[0].OnMap() <==> rows > 0);
    }

    ghost predicate Valid()
      reads fleet
    {
      && table.Valid()
      && (forall i, j | 0 <= i < j < |fleet| :: fleet[i] != fleet[j])
      && (forall i | 0 <= i < |fleet| :: fleet[i].OnMap())
    }

    ghost function Amrs(): (r: seq<Amr>)
      reads fleet
      ensures |r| == |fleet| && forall i | 0 <= i < |fleet| :: r[i] == fleet[i].View()
    {
      seq(|fleet|, i requires 0 <= i < |fleet| reads fleet => fleet[i].View())
    }

    /** The state of AMR j when a loop over the fleet, looking for an id, has come to AMR i. */
    ghost predicate DoneAt(j: nat, i: nat, id: string, op: Op, was: seq<Amr>)
      requires j < |fleet|
      reads fleet[j]
    {
      |was| == |fleet| && fleet[j].View() == if j < i && was[j].id == id then Perform(was[j], op) else was[j]
    }

    lemma AllDone(id: string, op: Op, was: seq<Amr>)
      requires |was| == |fleet| && forall j: nat | j < |fleet| :: DoneAt(j, |fleet|, id, op, was)
      ensures Amrs() == Update(was, id, op)
    {
      forall j: nat | j < |fleet|
        ensures Amrs()[j] == Update(was, id, op)[j]
      {
        assert DoneAt(j, |fleet|, id, op, was);
      }
    }

    method RequestTransport(amrId: string, job: Job)
      requires Valid()
      modifies fleet
      ensures Valid() && Amrs() == Update(old(Amrs()), amrId, Accepting(job))
    {
      ghost var was := Amrs();
      for i := 0 to |fleet|
        invariant Valid() && forall j: nat | j < |fleet| :: DoneAt(j, i, amrId, Accepting(job), was)
      {
        assert DoneAt(i, i, amrId, Accepting(job), was);
        if fleet[i].amrId == amrId {
          fleet[i].AcceptJob(job);
        }
        ghost var next := i + 1;
        forall j: nat | j < |fleet|
          ensures DoneAt(j, next, amrId, Accepting(job), was)
        {
          assert j != i ==> DoneAt(j, i, amrId, Accepting(job), was);
        }
      }
      AllDone(amrId, Accepting(job), was);
    }

    method CancelTransport(amrId: string, order: string)
      requires Valid()
      modifies fleet
      ensures Valid() && Amrs() == Update(old(Amrs()), amrId, Cancelling(order))
    {
      ghost var was := Amrs();
      for i := 0 to |fleet|
        invariant Valid() && forall j: nat | j < |fleet| :: DoneAt(j, i, amrId, Cancelling(order), was)
      {
        assert DoneAt(i, i, amrId, Cancelling(order), was);
        if fleet[i].amrId == amrId {
          fleet[i].CancelOrder(order);
        }
        ghost var next := i + 1;
        forall j: nat | j < |fleet|
          ensures DoneAt(j, next, amrId, Cancelling(order), was)
        {
          assert j != i ==> DoneAt(j, i, amrId, Cancelling(order), was);
        }
      }
      AllDone(amrId, Cancelling(order), was);
    }

    method TriggerBreakdown(amrId: string, seconds: real)
      requires Valid()
      modifies fleet
      ensures Valid() && Amrs() == Update(old(Amrs()), amrId, Breaking(seconds))
    {
      ghost var was := Amrs();
      for i := 0 to |fleet|
        invariant Valid() && forall j: nat | j < |fleet| :: DoneAt(j, i, amrId, Breaking(seconds), was)
      {
        assert DoneAt(i, i, amrId, Breaking(seconds), was);
        if fleet[i].amrId == amrId {
          fleet[i].TriggerBreakdown(seconds);
        }
        ghost var next := i + 1;
        forall j: nat | j < |fleet|
          ensures DoneAt(j, next, amrId, Breaking(seconds), was)
        {
          assert j != i ==> DoneAt(j, i, amrId, Breaking(seconds), was);
        }
      }
      AllDone(amrId, Breaking(seconds), was);
    }

    method IndexOf(amrId: string) returns (k: nat)
      ensures k <= |fleet| && (k < |fleet| ==> fleet[k].amrId == amrId)
      ensures forall j | 0 <= j < k :: fleet[j].amrId != amrId
    {
      k := 0;
      while k < |fleet| && fleet[k].amrId != amrId
        invariant k <= |fleet| && forall j | 0 <= j < k :: fleet[j].amrId != amrId
      {
        k := k + 1;
      }
    }

    method FollowPlan(index: nat, amrId: string, path: seq<Cell>)
      requires Valid() && index < |fleet| && |path| < table.horizonTicks && AllNatural(path)
      requires forall i | 0 <= i < |path| :: Inside(table.gridCols, table.gridRows, path[i])
      modifies fleet[index], table`edgeReservations, table.reservedBy
      ensures Valid() && CommitTo(old(table.View()), amrId, path, table.View())
      ensures Amrs() == old(Amrs())[index := Perform(old(Amrs())[index], Directing(path))]
    {
      table.CommitReservation(amrId, path);
      fleet[index].Follow(path);
    }

    /** An explicit request for a path to a cell, for the first AMR of that id. */
    method ReserveTrajectory(amrId: string, goal: Cell) returns (granted: bool, ghost k: nat, ghost plan: Option<seq<Cell>>)
      requires Valid()
      modifies fleet, table`edgeReservations, table.reservedBy
      ensures Valid() && k <= |fleet| && (granted <==> k < |fleet| && plan.Some?)
      ensures (k < |fleet| ==> fleet[k].amrId == amrId) && forall j | 0 <= j < k :: fleet[j].amrId != amrId
      ensures k < |fleet| ==>
        && (plan.Some? ==> Feasible(old(table.View()), amrId, old(fleet[k].cell), goal, plan.value))
        && (FitsKeys(old(table.View()), old(fleet[k].cell)) ==> Best(old(table.View()), amrId, old(fleet[k].cell), goal, plan))
      ensures if granted then CommitTo(old(table.View()), amrId, plan.value, table.View())
                              && Amrs() == old(Amrs())[k := Perform(old(Amrs())[k], Directing(plan.value))]
              else table.View() == old(table.View()) && Amrs() == old(Amrs())
    {
      granted, plan := false, None;
      var index := IndexOf(amrId);
      k := index;
      if index < |fleet| {
        var path := table.SpaceTimeAStar(amrId, fleet[index].cell, goal);
        plan := path;
        if path.Some? {
          FeasibleStaysInside(table.View(), amrId, fleet[index].cell, goal, path.value);
          FollowPlan(index, amrId, path.value);
          granted := true;
        }
      }
    }

    /** The scan for the first AMR of least load. */
    method FindLeastLoaded() returns (best: nat, bestLoad: nat)
      requires |fleet| > 0
      ensures LeastLoaded(Amrs(), best) && bestLoad == Load(Amrs()[best])
    {
      best, bestLoad := 0, |fleet[0].jobQueue| + (if fleet[0].Free() then 0 else 1);
      for i := 1 to |fleet|
        invariant best < i && bestLoad == Load(Amrs()[best])
        invariant forall j | 0 <= j < i :: bestLoad <= Load(Amrs()[j])
        invariant forall j | 0 <= j < best :: bestLoad < Load(Amrs()[j])
      {
        var load := |fleet[i].jobQueue| + (if fleet[i].Free() then 0 else 1);
        if load < bestLoad {
          best, bestLoad := i, load;
        }
      }
    }

    /** Choosing the AMR and committing the job to it, in one operation. */
    method ReserveTransport(job: Job) returns (chosenAmrId: string, chosenLoad: int, ghost best: nat)
      requires Valid()
      modifies fleet
      ensures Valid()
      ensures |fleet| == 0 ==> chosenAmrId == "" && chosenLoad == -1
      ensures |fleet| > 0 ==>
        && LeastLoaded(old(Amrs()), best) && chosenAmrId == fleet[best].amrId && chosenLoad == Load(old(Amrs())[best])
        && Amrs() == old(Amrs())[best := Accept(old(Amrs())[best], job)]
    {
      best := 0;
      if |fleet| == 0 {
        return "", -1, 0;
      }
      var b, load := FindLeastLoaded();
      best := b;
      fleet[b].AcceptJob(job);
      chosenAmrId, chosenLoad := fleet[b].amrId, load;
    }

    /** One AMR's step. `plan` is what the planner answered, if the step got that far. */
    method StepAMR(i: nat, dt: real, failure: Option<real>) returns (signals: seq<Signal>, plan: Option<seq<Cell>>)
      requires Valid() && i < |fleet|
      modifies fleet[i], table`edgeReservations, table.reservedBy
      ensures Valid()
      ensures (fleet[i].View(), signals) == StepAmr(old(fleet[i].View()), dt, failure, stationOf, plan)
      ensures Planned(old(table.View()), old(fleet[i].View()), failure, stationOf, plan, table.View())
    {
      var a := fleet[i];
      signals, plan := [], None;
      if a.downtimeRemainingS > 0.0 {
        a.Repair(dt);
      } else if a.status == MOVING && failure.Some? {
        a.TriggerBreakdown(failure.value);
      } else if a.dwellRemaining > 0.0 {
        a.dwellRemaining := a.dwellRemaining - dt;
      } else if a.path == [] || a.pathIndex >= |a.path| {
        var stop, target;
        signals, stop, target := a.PrepareLeg(stationOf);
        plan := PlanLeg(a.amrId, a.cell, target);
        var blocked := a.TakeUp(stop, plan);
        signals := signals + blocked;
      } else {
        a.Drive(dt);
      }
    }

    /** Planning, and committing what was found. */
    method PlanLeg(amrId: string, start: Cell, target: Cell) returns (plan: Option<seq<Cell>>)
      requires table.Valid() && start.x >= 0 && start.y >= 0
      modifies table`edgeReservations, table.reservedBy
      ensures plan.Some? ==> AllNatural(plan.value)
      ensures Answered(old(table.View()), amrId, start, target, plan, table.View())
    {
      plan := table.SpaceTimeAStar(amrId, start, target);
      if plan.Some? {
        FeasibleStaysInside(table.View(), amrId, start, target, plan.value);
        if plan.value != [] {
          table.CommitReservation(amrId, plan.value);
        }
      }
    }

    /** The event leads to the fleet's present state, with these signals, along a path that the planner may answer. */
    ghost predicate IsOutcome(f: Fleet, e: Event, signals: seq<Signal>)
      requires Possible(f, e)
      reads fleet
    {
      var g := Apply(f, e, stationOf);
      && g.amrs == Amrs() && g.arrived == f.arrived + ArrivedIn(signals)
      && Motion.PlansWalkable(table.gridCols, table.gridRows, f, e)
    }

    /** A step, recorded in the traces of the planner and of the fleet. */
    method TracedStep(i: nat, dt: real, failure: Option<real>, ghost ws: seq<Runs.World>, ghost es: seq<Runs.Event>, ghost f: Fleet)
      returns (signals: seq<Signal>, ghost ws': seq<Runs.World>, ghost es': seq<Runs.Event>, ghost step: Event)
      requires Valid() && i < |fleet| && PlanTrace(ws, es, table.View()) && f.amrs == Amrs()
      modifies fleet, table`edgeReservations, table.reservedBy
      ensures Valid() && PlanTrace(ws', es', table.View()) && ws'[0] == ws[0]
      ensures Possible(f, step) && step.Step? && step.index == i && IsOutcome(f, step, signals)
    {
      ghost var a, amrs := fleet[i].View(), Amrs();
      ghost var before := table.View();
      var plan;
      signals, plan := StepAMR(i, dt, failure);
      assert Amrs() == amrs[i := fleet[i].View()];
      step := Step(i, dt, failure, plan);
      PlannedIsWalkable(before, a, failure, stationOf, plan, table.View());
      ws', es' := ws, es;
      if plan.Some? && plan.value != [] {
        ghost var e := Runs.Plan(a.id, a.pos, Redirect(a, stationOf).2, plan.value);
        ghost var after := PlannedIsStep(ws[|es|], e, table.View());
        Runs.TraceGrows(ws, es, e, after);
        ws', es' := ws + [after], es + [e];
      }
    }

    method RecordedStep(dt: real, order: seq<nat>, k: nat, failure: Option<real>, ghost ws: seq<Runs.World>, ghost es: seq<Runs.Event>,
                        ghost f: Fleet, ghost steps: seq<Event>, ghost sent: seq<Signal>)
      returns (signals: seq<Signal>, ghost ws': seq<Runs.World>, ghost es': seq<Runs.Event>, ghost steps': seq<Event>)
      requires Valid() && k < |order| && order[k] < |fleet| && PlanTrace(ws, es, table.View())
      requires FleetTrace(f, steps, stationOf, order[..k], Amrs()) && Reported(f, steps, sent)
      modifies fleet, table`edgeReservations, table.reservedBy
      ensures Valid() && PlanTrace(ws', es', table.View()) && ws'[0] == ws[0]
      ensures FleetTrace(f, steps', stationOf, order[..k + 1], Amrs()) && Reported(f, steps', sent + signals)
    {
      ghost var g := After(f, steps, stationOf);
      ghost var step;
      signals, ws', es', step := TracedStep(order[k], dt, failure, ws, es, g);
      FleetTraceGrows(f, steps, step, stationOf, order, k, g, Amrs());
      steps' := steps + [step];
      ReportedGrows(f, steps, step, sent, signals);
    }

    /** The run's plans are what the planner may answer, and its arrivals are the signals sent. */
    predicate Reported(f: Fleet, steps: seq<Event>, signals: seq<Signal>) {
      && IsRun(f, steps, stationOf) && Motion.RunIsPlanned(table.gridCols, table.gridRows, f, steps, stationOf)
      && After(f, steps, stationOf).arrived == f.arrived + ArrivedIn(signals)
    }

    lemma ReportedGrows(f: Fleet, steps: seq<Event>, e: Event, sent: seq<Signal>, signals: seq<Signal>)
      requires Reported(f, steps, sent) && Possible(After(f, steps, stationOf), e)
      requires var g := After(f, steps, stationOf);
        && Apply(g, e, stationOf).arrived == g.arrived + ArrivedIn(signals)
        && Motion.PlansWalkable(table.gridCols, table.gridRows, g, e)
      ensures Reported(f, steps + [e], sent + signals)
    {
      RunGrows(f, steps, e, stationOf);
      Motion.PlannedGrows(table.gridCols, table.gridRows, f, steps, e, stationOf);
      ArrivedAppend(sent, signals);
    }

    /** One tick of the fleet: every AMR steps once, the most blocked first, then the table is refreshed. `order`
        is the stable library sort's result, `failures` the random breakdowns. The ghost results show that the tick
        is a stretch of the planner runs of ReservationRuns and of the fleet runs of FleetRuns. */
    method UpdatePositions(dt: real, order: seq<nat>, failures: seq<Option<real>>, ghost w: Runs.World, ghost f: Fleet)
      returns (signals: seq<Signal>, need: Option<real>, ghost ws: seq<Runs.World>, ghost es: seq<Runs.Event>,
               ghost steps: seq<Event>)
      requires Valid() && |failures| == |fleet| && IsPlanningOrder(Amrs(), order)
      requires w.tab == table.View() && f.amrs == Amrs()
      modifies fleet, table`edgeReservations, table.reservedBy
      ensures Valid() && PlanTrace(ws, es, table.View()) && ws[0] == w
      ensures |es| > 0 && es[|es| - 1] == Runs.Tick(MarksOf(Amrs()))
      ensures FleetTrace(f, steps, stationOf, order, Amrs()) && Reported(f, steps, signals)
      ensures IsNeed(Amrs(), need)
    {
      signals, ws, es, steps := StepAll(dt, order, failures, w, f);
      ghost var amrs := Amrs();
      ws, es := RefreshTable(ws, es);
      need := SoonestNeed(amrs);
    }

    /** Its planning loop. */
    method StepAll(dt: real, order: seq<nat>, failures: seq<Option<real>>, ghost w: Runs.World, ghost f: Fleet)
      returns (signals: seq<Signal>, ghost ws: seq<Runs.World>, ghost es: seq<Runs.Event>, ghost steps: seq<Event>)
      requires Valid() && |failures| == |fleet| && forall k | 0 <= k < |order| :: order[k] < |fleet|
      requires w.tab == table.View() && f.amrs == Amrs()
      modifies fleet, table`edgeReservations, table.reservedBy
      ensures Valid() && PlanTrace(ws, es, table.View()) && ws[0] == w
      ensures FleetTrace(f, steps, stationOf, order, Amrs()) && Reported(f, steps, signals)
    {
      signals, ws, es, steps := [], [w], [], [];
      assert order[..0] == [];
      for k := 0 to |order|
        invariant Valid() && PlanTrace(ws, es, table.View()) && ws[0] == w
        invariant FleetTrace(f, steps, stationOf, order[..k], Amrs()) && Reported(f, steps, signals)
      {
        var s;
        s, ws, es, steps := RecordedStep(dt, order, k, failures[order[k]], ws, es, f, steps, signals);
        signals := signals + s;
      }
      assert order[..|order|] == order;
    }

    /** The loop over the active AMRs: when the fleet wants to be stepped again, counted from now. */
    method SoonestNeed(ghost amrs: seq<Amr>) returns (need: Option<real>)
      requires amrs == Amrs()
      ensures IsNeed(amrs, need) && amrs == Amrs()
    {
      need := None;
      for i := 0 to |fleet|
        invariant IsNeed(amrs[..i], need)
      {
        assert amrs[..i + 1] == amrs[..i] + [fleet[i].View()];
        if fleet[i].status != IDLE {
          var own := NeedOf(fleet[i].dwellRemaining);
          if need.None? || own < need.value {
            need := Some(own);
          }
        }
      }
      assert amrs[..|fleet|] == amrs;
    }

    method RefreshTable(ghost ws: seq<Runs.World>, ghost es: seq<Runs.Event>)
      returns (ghost ws': seq<Runs.World>, ghost es': seq<Runs.Event>)
      requires Valid() && PlanTrace(ws, es, table.View())
      modifies table.reservedBy
      ensures PlanTrace(ws', es', table.View()) && ws'[0] == ws[0] && |es'| == |es| + 1 && es'[|es|] == Runs.Tick(MarksOf(Amrs()))
      ensures Valid() && Amrs() == old(Amrs())
    {
      var marks := seq(|fleet|, i requires 0 <= i < |fleet| reads fleet => (fleet[i].amrId, fleet[i].cell));
      assert marks == MarksOf(Amrs());
      table.RefreshGridOccupancy(marks);
      ghost var w := ws[|es|];
      ghost var after := w.(tab := table.View(), now := w.now + 1);
      Runs.TraceGrows(ws, es, Runs.Tick(marks), after);
      ws', es' := ws + [after], es + [Runs.Tick(marks)];
    }
  }

  /** The presence marks of a tick: every AMR at its cell. */
  function MarksOf(amrs: seq<Amr>): seq<(string, Cell)> {
    seq(|amrs|, i requires 0 <= i < |amrs| => (amrs[i].id, amrs[i].pos))
  }

  /** A trace of the planner that ends in the given tables. */
  ghost predicate PlanTrace(ws: seq<Runs.World>, es: seq<Runs.Event>, tab: Tables) {
    Runs.IsTrace(ws, es) && ws[|es|].tab == tab
  }

  /** All indices once, by descending number of blocked ticks, equal ones in fleet order. */
  predicate IsPlanningOrder(amrs: seq<Amr>, order: seq<nat>) {
    && |order| == |amrs|
    && (forall k | 0 <= k < |order| :: order[k] < |amrs|)
    && forall k, l | 0 <= k < l < |order| ::
         var a, b := amrs[order[k]], amrs[order[l]];
         a.blockedTicks > b.blockedTicks || (a.blockedTicks == b.blockedTicks && order[k] < order[l])
  }

  lemma {:induction false} RunGrows(f: Fleet, es: seq<Event>, e: Event, stationOf: string -> Option<Cell>)
    requires IsRun(f, es, stationOf) && Possible(After(f, es, stationOf), e)
    ensures IsRun(f, es + [e], stationOf)
    ensures After(f, es + [e], stationOf) == Apply(After(f, es, stationOf), e, stationOf)
    decreases |es|
  {
    if es == [] {
      assert [e][1..] == [];
    } else {
      assert (es + [e])[1..] == es[1..] + [e];
      RunGrows(Apply(f, es[0], stationOf), es[1..], e, stationOf);
    }
  }

  predicate StepsOf(steps: seq<Event>, order: seq<nat>) {
    |steps| == |order| && forall l | 0 <= l < |order| :: steps[l].Step? && steps[l].index == order[l]
  }

  /** A run of the fleet in which the AMRs of `order` step once each, in that order. */
  ghost predicate FleetTrace(f: Fleet, steps: seq<Event>, stationOf: string -> Option<Cell>, order: seq<nat>, amrs: seq<Amr>) {
    StepsOf(steps, order) && IsRun(f, steps, stationOf) && After(f, steps, stationOf).amrs == amrs
  }

  lemma FleetTraceGrows(f: Fleet, steps: seq<Event>, e: Event, stationOf: string -> Option<Cell>, order: seq<nat>, k: nat,
                        g: Fleet, amrs: seq<Amr>)
    requires k < |order| && StepsOf(steps, order[..k]) && IsRun(f, steps, stationOf) && g == After(f, steps, stationOf)
    requires Possible(g, e) && e.Step? && e.index == order[k] && amrs == Apply(g, e, stationOf).amrs
    ensures FleetTrace(f, steps + [e], stationOf, order[..k + 1], amrs)
  {
    RunGrows(f, steps, e, stationOf);
    StepsGrow(steps, e, order, k);
  }

  lemma StepsGrow(steps: seq<Event>, e: Event, order: seq<nat>, k: nat)
    requires k < |order| && StepsOf(steps, order[..k]) && e.Step? && e.index == order[k]
    ensures StepsOf(steps + [e], order[..k + 1])
  {
  }

  /** An active AMR asks for its dwell time, but never for less than 0.05 s or more than the time for one cell. */
  function NeedOf(dwell: real): real {
    RealAlgebra.Least(SEC_PER_CELL, RealAlgebra.Largest(dwell, 0.05))
  }

  /** Nothing if all AMRs are idle, else the least need of the others. */
  predicate IsNeed(amrs: seq<Amr>, need: Option<real>) {
    match need
    case None => forall i | 0 <= i < |amrs| :: amrs[i].status == IDLE
    case Some(n) =>
      && (exists i | 0 <= i < |amrs| :: amrs[i].status != IDLE && NeedOf(amrs[i].dwell) == n)
      && (forall i | 0 <= i < |amrs| && amrs[i].status != IDLE :: n <= NeedOf(amrs[i].dwell))
  }

  /** An active fleet asks to be stepped within half a second, and before any pause of at least 0.05 s is over. */
  lemma NeedIsSoon(amrs: seq<Amr>, need: Option<real>)
    requires IsNeed(amrs, need)
    ensures need.None? <==> forall i | 0 <= i < |amrs| :: amrs[i].status == IDLE
    ensures need.Some? ==> 0.05 <= need.value <= 0.5
    ensures forall i | 0 <= i < |amrs| && amrs[i].status != IDLE && amrs[i].dwell >= 0.05 :: need.value <= amrs[i].dwell
  {
    forall i | 0 <= i < |amrs| && amrs[i].status != IDLE
      ensures need.Some? && need.value <= NeedOf(amrs[i].dwell)
    {
    }
  }

  lemma {:induction false} ArrivedAppend(s: seq<Signal>, t: seq<Signal>)
    ensures ArrivedIn(s + t) == ArrivedIn(s) + ArrivedIn(t)
  {
    if s == [] {
      assert s + t == t;
    } else {
      assert (s + t)[1..] == s[1..] + t;
      ArrivedAppend(s[1..], t);
    }
  }

  lemma PlannedIsWalkable(before: Tables, a: Amr, failure: Option<real>, stationOf: string -> Option<Cell>,
                          plan: Option<seq<Cell>>, after: Tables)
    requires Planned(before, a, failure, stationOf, plan, after)
    ensures plan.Some? ==> Motion.Walkable(before.cols, before.rows, a.pos, plan.value)
  {
    if plan.Some? {
      Motion.FeasibleIsWalkable(before, a.id, a.pos, Redirect(a, stationOf).2, plan.value);
    }
  }

  lemma PlannedIsStep(w: Runs.World, e: Runs.Event, tab: Tables) returns (w': Runs.World)
    requires e.Plan? && Runs.Allowed(w, e) && CommitTo(w.tab, e.amr, e.path, tab)
    ensures Runs.Step(w, e, w') && w'.tab == tab
  {
    var calendar := CommitExists(w.calendar, e.amr, e.path, w.now);
    w' := Runs.World(tab, w.now, calendar);
  }

  /** What a step does to the tables: if it plans, the answer is the planner's best and, unless empty, committed. */
  ghost predicate Planned(before: Tables, a: Amr, failure: Option<real>, stationOf: string -> Option<Cell>,
                          plan: Option<seq<Cell>>, after: Tables)
  {
    if PlansNow(a, failure) then Answered(before, a.id, a.pos, Redirect(a, stationOf).2, plan, after)
    else plan == None && after == before
  }

  ghost predicate Answered(before: Tables, amr: string, start: Cell, target: Cell, plan: Option<seq<Cell>>, after: Tables) {
    && (plan.Some? ==> AllNatural(plan.value) && Feasible(before, amr, start, target, plan.value))
    && (FitsKeys(before, start) ==> Best(before, amr, start, target, plan))
    && (if plan.Some? && plan.value != [] then CommitTo(before, amr, plan.value, after) else after == before)
  }

  lemma FeasibleStaysInside(tab: Tables, amr: string, start: Cell, goal: Cell, plan: seq<Cell>)
    requires Feasible(tab, amr, start, goal, plan)
    ensures |plan| < tab.horizon && AllNatural(plan) && forall i | 0 <= i < |plan| :: Inside(tab.cols, tab.rows, plan[i])
  {
    forall i: nat | i < |plan|
      ensures Inside(tab.cols, tab.rows, plan[i])
    {
      assert StepAt(OpenMoves(tab, amr), start, plan, i);
    }
  }
}
