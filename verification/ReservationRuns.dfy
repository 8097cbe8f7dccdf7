/** Whole runs of the planner: any interleaving of granted plans, per-tick refreshes and supervisor clears.
    The table's clock counts the shifts. */
module ReservationRuns {
  import opened Wrappers
  import opened SpaceTime

  /** The relative tables, the number of shifts so far, and (in absolute time) every slot ever committed. */
  datatype World = World(tab: Tables, now: nat, calendar: map<Slot, string>)

  datatype Event =
    | Plan(amr: string, start: Cell, goal: Cell, path: seq<Cell>)  // planned and committed
    | Tick(marks: seq<(string, Cell)>)                             // refreshGridOccupancy
    | Clear                                                        // clearExpiredReservations

  /** A plan is committed only if the search could return it for the tables of that moment: it is feasible, and
      a shortest one wherever the packed keys are unique. */
  ghost predicate Allowed(w: World, e: Event) {
    e.Plan? ==>
      && AllNatural(e.path) && Feasible(w.tab, e.amr, e.start, e.goal, e.path)
      && (FitsKeys(w.tab, e.start) ==> Best(w.tab, e.amr, e.start, e.goal, Some(e.path)))
  }

  ghost predicate Effect(w: World, e: Event, w': World) {
    match e
    case Plan(amr, _, _, path) =>
      CommitTo(w.tab, amr, path, w'.tab) && w'.now == w.now && Committed(w.calendar, amr, path, w.now, w'.calendar)
    case Tick(marks) => RefreshTo(w.tab, marks, w'.tab) && w'.now == w.now + 1 && w'.calendar == w.calendar
    case Clear => ClearTo(w.tab, w'.tab) && w'.now == w.now + 1 && w'.calendar == w.calendar
  }

  ghost predicate Step(w: World, e: Event, w': World) {
    Allowed(w, e) && Effect(w, e, w')
  }

  ghost predicate StepOf(ws: seq<World>, es: seq<Event>, i: nat)
    requires |ws| == |es| + 1 && i < |es|
  {
    Step(ws[i], es[i], ws[i + 1])
  }

  /** ws are the worlds before and after each event. */
  ghost predicate IsTrace(ws: seq<World>, es: seq<Event>) {
    |ws| == |es| + 1 && forall i: nat | i < |es| :: StepOf(ws, es, i)
  }

  /** The empty tables of a grid. */
  ghost predicate IsStart(w: World) {
    w == World(Tables(w.tab.cols, w.tab.rows, w.tab.cols + w.tab.rows + 4, map[], iset{}), 0, map[])
  }

  /** A run starts from the empty tables. */
  ghost predicate IsRun(ws: seq<World>, es: seq<Event>) {
    IsTrace(ws, es) && IsStart(ws[0])
  }

  lemma TraceGrows(ws: seq<World>, es: seq<Event>, e: Event, w: World)
    requires IsTrace(ws, es) && Step(ws[|es|], e, w)
    ensures IsTrace(ws + [w], es + [e])
  {
    var ws', es' := ws + [w], es + [e];
    forall i: nat | i < |es'|
      ensures StepOf(ws', es', i)
    {
      assert i < |es| ==> StepOf(ws, es, i);
    }
  }

  /** Every plan of a run is a shortest one for its tables, wherever the packed keys are unique. */
  lemma PlansAreBest(ws: seq<World>, es: seq<Event>, p: nat)
    requires IsRun(ws, es) && p < |es| && es[p].Plan? && FitsKeys(ws[p].tab, es[p].start)
    ensures Best(ws[p].tab, es[p].amr, es[p].start, es[p].goal, Some(es[p].path))
  {
    assert StepOf(ws, es, p);
  }

  ghost predicate RefinesAt(w: World, s: Slot) {
    s.t >= 1 ==> EntryOf(w.tab.owner, s) == EntryOf(w.calendar, Later(s, w.now))
  }

  /** Beyond index 0, the relative table is the absolute calendar seen from `now`. */
  ghost predicate Refines(w: World) {
    forall s :: RefinesAt(w, s)
  }

  lemma EffectRefinesAt(w: World, e: Event, w': World, s: Slot)
    requires Effect(w, e, w') && s.t >= 1 && RefinesAt(w, if e.Plan? then s else Later(s, 1))
    ensures RefinesAt(w', s)
  {
    match e
    case Plan(amr, _, _, path) =>
      assert CommittedAt(w.tab.owner, amr, path, 0, w'.tab.owner, s);
      assert CommittedAt(w.calendar, amr, path, w.now, w'.calendar, Later(s, w.now));
    case Tick(marks) =>
      assert RefreshedAt(w.tab.cols, w.tab.rows, w.tab.owner, marks, w'.tab.owner, s);
      MarksAtZero(w.tab.cols, w.tab.rows, marks, s);
    case Clear =>
      assert ShiftedAt(w.tab.owner, w'.tab.owner, s);
  }

  lemma StepRefines(w: World, e: Event, w': World)
    requires Refines(w) && Effect(w, e, w')
    ensures Refines(w')
  {
    forall s
      ensures RefinesAt(w', s)
    {
      if s.t >= 1 {
        EffectRefinesAt(w, e, w', s);
      }
    }
  }

  lemma EmptyRefines(w: World)
    requires w.tab.owner == map[] && w.calendar == map[]
    ensures Refines(w)
  {
  }

  /** The relative, shifting table always refines the calendar. */
  lemma {:induction false} RunRefines(ws: seq<World>, es: seq<Event>, p: nat)
    requires IsRun(ws, es) && p < |ws|
    ensures Refines(ws[p])
  {
    if p == 0 {
      EmptyRefines(ws[0]);
    } else {
      RunRefines(ws, es, p - 1);
      assert StepOf(ws, es, p - 1);
      StepRefines(ws[p - 1], es[p - 1], ws[p]);
    }
  }

  /** A granted plan enters no slot that the calendar gives to another AMR. */
  lemma PlanAvoidsOthers(w: World, e: Event, j: nat)
    requires Refines(w) && Allowed(w, e) && e.Plan? && j < |e.path|
    ensures EntryOf(w.calendar, At(e.path[j], w.now + j + 1)) in {None, Some(e.amr)}
  {
    assert StepAt(OpenMoves(w.tab, e.amr), e.start, e.path, j);
    var s := At(e.path[j], j + 1);
    assert RefinesAt(w, s);
  }

  /** One event leaves every reserved future slot with its owner. */
  lemma StepKeepsSlot(w: World, e: Event, w': World, s: Slot)
    requires Refines(w) && Step(w, e, w') && s in w.calendar && s.t > w'.now
    ensures w'.now >= w.now && EntryOf(w'.calendar, s) == EntryOf(w.calendar, s)
  {
    if e.Plan? {
      assert CommittedAt(w.calendar, e.amr, e.path, w.now, w'.calendar, s);
      if Occupies(e.path, w.now, s) {
        PlanAvoidsOthers(w, e, s.t - w.now - 1);
        assert At(e.path[s.t - w.now - 1], s.t) == s;
      }
    }
  }

  /** Reservations are never stolen: a slot owned by an AMR stays its own until its time has come. */
  lemma {:induction false} NeverStolen(ws: seq<World>, es: seq<Event>, p: nat, q: nat, s: Slot)
    requires IsRun(ws, es) && p <= q < |ws| && s in ws[p].calendar && s.t > ws[q].now
    ensures EntryOf(ws[q].calendar, s) == EntryOf(ws[p].calendar, s)
    decreases q - p
  {
    if p < q {
      assert StepOf(ws, es, q - 1);
      NeverStolen(ws, es, p, q - 1, s);
      RunRefines(ws, es, q - 1);
      StepKeepsSlot(ws[q - 1], es[q - 1], ws[q], s);
    }
  }

  /** Over any run, plans of different AMRs, committed at any two moments, never share a cell at the same time. */
  lemma PlansNeverMeet(ws: seq<World>, es: seq<Event>, p: nat, q: nat, i: nat, j: nat)
    requires IsRun(ws, es) && p < q < |es|
    requires es[p].Plan? && es[q].Plan? && es[p].amr != es[q].amr
    requires i < |es[p].path| && j < |es[q].path|
    requires ws[p].now + i == ws[q].now + j  // the same absolute time
    ensures es[p].path[i] != es[q].path[j]
  {
    var a, b := es[p], es[q];
    var s := At(a.path[i], ws[p].now + i + 1);
    assert StepOf(ws, es, p) && Occupies(a.path, ws[p].now, s);
    assert CommittedAt(ws[p].calendar, a.amr, a.path, ws[p].now, ws[p + 1].calendar, s);
    NeverStolen(ws, es, p + 1, q, s);
    assert StepOf(ws, es, q);
    RunRefines(ws, es, q);
    PlanAvoidsOthers(ws[q], b, j);
  }

  /** The presence marks of index 0 never influence planning. */
  lemma MarksNeverMatter(tab: Tables, marks: seq<(string, Cell)>, r: Tables, marks': seq<(string, Cell)>, r': Tables, amr: string)
    requires RefreshTo(tab, marks, r) && RefreshTo(tab, marks', r')
    ensures OpenMoves(r, amr) == OpenMoves(r', amr)
  {
    forall m: Move | m.t >= 0
      ensures CanStep(r, amr, m.from, m.to, m.t) <==> CanStep(r', amr, m.from, m.to, m.t)
    {
      var s := At(m.to, m.t + 1);
      MarksAtZero(tab.cols, tab.rows, marks, s);
      MarksAtZero(tab.cols, tab.rows, marks', s);
      assert RefreshedAt(tab.cols, tab.rows, tab.owner, marks, r.owner, s);
      assert RefreshedAt(tab.cols, tab.rows, tab.owner, marks', r'.owner, s);
    }
  }

  // ----- swaps

  /** Two plans cross the same edge in opposite directions, one leaving at tick t of its clock and the other at
      tick u of its own. */
  predicate Swap(startA: Cell, a: seq<Cell>, t: nat, startB: Cell, b: seq<Cell>, u: nat)
    requires t < |a| && u < |b|
  {
    && Position(startA, a, t) == Position(startB, b, u + 1)
    && Position(startA, a, t + 1) == Position(startB, b, u)
    && Position(startA, a, t) != Position(startA, a, t + 1)
  }

  lemma CommitBlocksReverse(a: Tables, amr: string, path: seq<Cell>, b: Tables, t: nat)
    requires AllNatural(path) && CommitTo(a, amr, path, b) && 1 <= t < |path| && path[t - 1] != path[t]
    ensures Move(path[t - 1], path[t], t) in b.edges
  {
    assert MoveAt(path, t) in Keyed(PlanKeys(path));
  }

  lemma PlanRespectsEdges(tab: Tables, amr: string, start: Cell, goal: Cell, path: seq<Cell>, t: nat)
    requires Feasible(tab, amr, start, goal, path) && t < |path|
    ensures var a, b := Position(start, path, t), Position(start, path, t + 1); a != b ==> Move(b, a, t) !in tab.edges
  {
    assert StepAt(OpenMoves(tab, amr), start, path, t);
  }

  lemma {:induction false} EdgesGrowWithinTick(ws: seq<World>, es: seq<Event>, p: nat, q: nat)
    requires IsRun(ws, es) && p <= q < |ws| && forall k | p <= k < q :: es[k].Plan?
    ensures ws[p].tab.edges <= ws[q].tab.edges
    decreases q - p
  {
    if p < q {
      EdgesGrowWithinTick(ws, es, p, q - 1);
      assert StepOf(ws, es, q - 1);
    }
  }

  /** Two plans committed with no shift between them never swap at a common departure tick t >= 1. */
  lemma NoSwapWithinTick(ws: seq<World>, es: seq<Event>, p: nat, q: nat, t: nat)
    requires IsRun(ws, es) && p < q < |es| && forall k | p <= k <= q :: es[k].Plan?
    requires 1 <= t < |es[p].path| && t < |es[q].path|
    ensures !Swap(es[p].start, es[p].path, t, es[q].start, es[q].path, t)
  {
    var a, b := es[p], es[q];
    assert StepOf(ws, es, p) && StepOf(ws, es, q);
    EdgesGrowWithinTick(ws, es, p + 1, q);
    PlanRespectsEdges(ws[q].tab, b.amr, b.start, b.goal, b.path, t);
    if a.path[t - 1] != a.path[t] {
      CommitBlocksReverse(ws[p].tab, a.amr, a.path, ws[p + 1].tab, t);
    }
  }
}
