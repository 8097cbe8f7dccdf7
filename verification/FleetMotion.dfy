/** Where the AMRs are: they move from cell to neighbouring cell, inside the grid, whatever happens to their jobs. */
module FleetMotion {
  import opened Wrappers
  import opened SpaceTime
  import opened FleetJobs
  import opened FleetRuns

  /** From `from`, the path's cells from index i on follow each other one step at a time. */
  predicate Follows(from: Cell, path: seq<Cell>, i: nat) {
    forall k: nat | i <= k < |path| :: HopAt(from, path, i, k)
  }

  predicate HopAt(from: Cell, path: seq<Cell>, i: nat, k: nat)
    requires i <= k < |path|
  {
    Manhattan(if k == i then from else path[k - 1], path[k]) <= 1
  }

  predicate AllInside(cols: nat, rows: nat, path: seq<Cell>) {
    forall k | 0 <= k < |path| :: Inside(cols, rows, path[k])
  }

  /** In the grid, with the rest of its path ahead of it. */
  predicate OnTrack(cols: nat, rows: nat, a: Amr) {
    Inside(cols, rows, a.pos) && AllInside(cols, rows, a.path) && Follows(a.pos, a.path, a.pathIndex)
  }

  /** What the planner answers from a cell. */
  predicate Walkable(cols: nat, rows: nat, from: Cell, plan: seq<Cell>) {
    AllInside(cols, rows, plan) && Follows(from, plan, 0)
  }

  lemma FeasibleIsWalkable(tab: Tables, amr: string, start: Cell, goal: Cell, plan: seq<Cell>)
    requires Feasible(tab, amr, start, goal, plan)
    ensures Walkable(tab.cols, tab.rows, start, plan)
  {
    forall k: nat | k < |plan|
      ensures HopAt(start, plan, 0, k) && Inside(tab.cols, tab.rows, plan[k])
    {
      assert StepAt(OpenMoves(tab, amr), start, plan, k);
    }
  }

  /** One step: at most one cell, namely the next one of the path, and only when nothing holds the AMR up. */
  lemma StepMovesOneCell(cols: nat, rows: nat, a: Amr, dt: real, failure: Option<real>, stationOf: string -> Option<Cell>,
                         plan: Option<seq<Cell>>)
    requires OnTrack(cols, rows, a) && (plan.Some? ==> Walkable(cols, rows, a.pos, plan.value))
    ensures var b := StepAmr(a, dt, failure, stationOf, plan).0;
      && OnTrack(cols, rows, b) && Manhattan(a.pos, b.pos) <= 1
      && (b.pos != a.pos ==> a.downtime <= 0.0 && a.dwell <= 0.0 && a.pathIndex < |a.path| && b.pos == a.path[a.pathIndex])
  {
    if PlansNow(a, failure) {
      var (b, stop, _) := Redirect(a, stationOf);
      assert b.pos == a.pos;
      PlanStaysOnTrack(cols, rows, b, stop, plan);
    } else if a.downtime <= 0.0 && !(a.status == MOVING && failure.Some?) && a.dwell <= 0.0 {
      assert HopAt(a.pos, a.path, a.pathIndex, a.pathIndex);
      AdvanceStaysOnTrack(cols, rows, a, dt);
    }
  }

  lemma PlanStaysOnTrack(cols: nat, rows: nat, a: Amr, stop: Option<string>, plan: Option<seq<Cell>>)
    requires Inside(cols, rows, a.pos) && (plan.Some? ==> Walkable(cols, rows, a.pos, plan.value))
    ensures OnTrack(cols, rows, TakePlan(a, stop, plan).0) && TakePlan(a, stop, plan).0.pos == a.pos
  {
  }

  lemma AdvanceStaysOnTrack(cols: nat, rows: nat, a: Amr, dt: real)
    requires OnTrack(cols, rows, a) && a.pathIndex < |a.path|
    ensures OnTrack(cols, rows, Advance(a, dt)) && Advance(a, dt).pos in {a.pos, a.path[a.pathIndex]}
  {
    var b := Advance(a, dt);
    forall k: nat | b.pathIndex <= k < |b.path|
      ensures HopAt(b.pos, b.path, b.pathIndex, k)
    {
      assert HopAt(a.pos, a.path, a.pathIndex, k);
    }
  }

  /** Accepting and cancelling jobs and breaking down leave an AMR where it is, and on its track. */
  lemma OperationStaysOnTrack(cols: nat, rows: nat, a: Amr, op: Op)
    requires OnTrack(cols, rows, a) && (op.Directing? ==> Walkable(cols, rows, a.pos, op.path))
    ensures OnTrack(cols, rows, Perform(a, op)) && Perform(a, op).pos == a.pos
  {
  }

  // ----- whole runs

  predicate AllOnTrack(cols: nat, rows: nat, amrs: seq<Amr>) {
    forall i: nat | i < |amrs| :: OnTrack(cols, rows, amrs[i])
  }

  /** The plans of an event are what the planner answers. */
  predicate PlansWalkable(cols: nat, rows: nat, f: Fleet, e: Event)
    requires Possible(f, e)
  {
    match e
    case Step(index, _, _, plan) => plan.Some? ==> Walkable(cols, rows, f.amrs[index].pos, plan.value)
    case Trajectory(id, path) => forall i | 0 <= i < |f.amrs| && f.amrs[i].id == id :: Walkable(cols, rows, f.amrs[i].pos, path)
    case _ => true
  }

  predicate OneCellAt(before: seq<Amr>, after: seq<Amr>, i: nat)
    requires |before| == |after| && i < |before|
  {
    Manhattan(before[i].pos, after[i].pos) <= 1
  }

  lemma UpdateStaysOnTrack(cols: nat, rows: nat, amrs: seq<Amr>, id: string, op: Op)
    requires AllOnTrack(cols, rows, amrs)
    requires op.Directing? ==> forall i | 0 <= i < |amrs| && amrs[i].id == id :: Walkable(cols, rows, amrs[i].pos, op.path)
    ensures AllOnTrack(cols, rows, Update(amrs, id, op))
    ensures forall i: nat | i < |amrs| :: OneCellAt(amrs, Update(amrs, id, op), i)
  {
    forall i: nat | i < |amrs|
      ensures OnTrack(cols, rows, Update(amrs, id, op)[i]) && OneCellAt(amrs, Update(amrs, id, op), i)
    {
      assert OnTrack(cols, rows, amrs[i]);
      if amrs[i].id == id {
        OperationStaysOnTrack(cols, rows, amrs[i], op);
      }
    }
  }

  lemma ReplaceOne(cols: nat, rows: nat, amrs: seq<Amr>, k: nat, b: Amr, after: seq<Amr>)
    requires AllOnTrack(cols, rows, amrs) && k < |amrs| && OnTrack(cols, rows, b) && Manhattan(amrs[k].pos, b.pos) <= 1
    requires after == amrs[k := b]
    ensures AllOnTrack(cols, rows, after) && forall i: nat | i < |amrs| :: OneCellAt(amrs, after, i)
  {
    forall i: nat | i < |amrs|
      ensures OnTrack(cols, rows, after[i]) && OneCellAt(amrs, after, i)
    {
      assert OnTrack(cols, rows, amrs[i]);
    }
  }

  /** No event moves any AMR by more than one cell, or out of the grid. */
  lemma EventMovesOneCell(cols: nat, rows: nat, f: Fleet, e: Event, stationOf: string -> Option<Cell>)
    requires AllOnTrack(cols, rows, f.amrs) && Possible(f, e) && PlansWalkable(cols, rows, f, e)
    ensures var g := Apply(f, e, stationOf);
      |g.amrs| == |f.amrs| && AllOnTrack(cols, rows, g.amrs) && forall i: nat | i < |f.amrs| :: OneCellAt(f.amrs, g.amrs, i)
  {
    match e
    case Request(id, job) => UpdateStaysOnTrack(cols, rows, f.amrs, id, Accepting(job));
    case CancelOrder(id, order) => UpdateStaysOnTrack(cols, rows, f.amrs, id, Cancelling(order));
    case Breakdown(id, seconds) => UpdateStaysOnTrack(cols, rows, f.amrs, id, Breaking(seconds));
    case Trajectory(id, path) => UpdateStaysOnTrack(cols, rows, f.amrs, id, Directing(path));
    case Reserve(job, best) =>
      if f.amrs != [] {
        assert OnTrack(cols, rows, f.amrs[best]);
        OperationStaysOnTrack(cols, rows, f.amrs[best], Accepting(job));
        ReplaceOne(cols, rows, f.amrs, best, Accept(f.amrs[best], job), Apply(f, e, stationOf).amrs);
      }
    case Step(i, dt, failure, plan) =>
      assert OnTrack(cols, rows, f.amrs[i]);
      StepMovesOneCell(cols, rows, f.amrs[i], dt, failure, stationOf, plan);
      ReplaceOne(cols, rows, f.amrs, i, StepAmr(f.amrs[i], dt, failure, stationOf, plan).0, Apply(f, e, stationOf).amrs);
  }

  predicate RunIsPlanned(cols: nat, rows: nat, f: Fleet, es: seq<Event>, stationOf: string -> Option<Cell>)
    requires IsRun(f, es, stationOf)
    decreases |es|
  {
    es == [] || (PlansWalkable(cols, rows, f, es[0]) && RunIsPlanned(cols, rows, Apply(f, es[0], stationOf), es[1..], stationOf))
  }

  lemma {:induction false} PlannedGrows(cols: nat, rows: nat, f: Fleet, es: seq<Event>, e: Event, stationOf: string -> Option<Cell>)
    requires IsRun(f, es, stationOf) && Possible(After(f, es, stationOf), e) && IsRun(f, es + [e], stationOf)
    requires RunIsPlanned(cols, rows, f, es, stationOf) && PlansWalkable(cols, rows, After(f, es, stationOf), e)
    ensures RunIsPlanned(cols, rows, f, es + [e], stationOf)
    decreases |es|
  {
    if es == [] {
      assert [e][1..] == [];
    } else {
      assert (es + [e])[1..] == es[1..] + [e];
      PlannedGrows(cols, rows, Apply(f, es[0], stationOf), es[1..], e, stationOf);
    }
  }

  /** Over every run, from AMRs in the grid, every AMR stays in the grid and on its track. */
  lemma {:induction false} FleetStaysOnTrack(cols: nat, rows: nat, f: Fleet, es: seq<Event>, stationOf: string -> Option<Cell>)
    requires AllOnTrack(cols, rows, f.amrs) && IsRun(f, es, stationOf) && RunIsPlanned(cols, rows, f, es, stationOf)
    ensures AllOnTrack(cols, rows, After(f, es, stationOf).amrs)
    decreases |es|
  {
    if es != [] {
      EventMovesOneCell(cols, rows, f, es[0], stationOf);
      FleetStaysOnTrack(cols, rows, Apply(f, es[0], stationOf), es[1..], stationOf);
    }
  }

  /** The fleet starts in the grid exactly if it has fewer AMRs than the grid has columns. */
  lemma InitialFleetOnTrackIff(cols: nat, rows: nat, count: nat)
    requires rows > 0 && count > 0
    ensures AllOnTrack(cols, rows, InitialAmrs(rows, count)) <==> count < cols
  {
    if AllOnTrack(cols, rows, InitialAmrs(rows, count)) {
      assert OnTrack(cols, rows, InitialAmrs(rows, count)[count - 1]);
    }
  }
}
