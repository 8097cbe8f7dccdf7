/** When two AMRs may trade places: exactly on the edge out of the start cell, or when their plans are made in
    different ticks. */
module EdgeSwaps {
  import opened Wrappers
  import PackedKeys
  import opened SpaceTime
  import opened ReservationRuns

  /** In every run, plans of different AMRs that are made d shifts apart are free of a swap at departure tick t of
      the earlier plan. */
  ghost predicate SwapFreeApart(d: nat, t: nat) {
    forall ws: seq<World>, es: seq<Event>, p: nat, q: nat :: IsPair(ws, es, p, q, d) ==> !SwapsAt(es[p], es[q], d, t)
  }

  ghost predicate IsPair(ws: seq<World>, es: seq<Event>, p: nat, q: nat, d: nat) {
    && IsRun(ws, es) && p < q < |es|
    && es[p].Plan? && es[q].Plan? && es[p].amr != es[q].amr && ws[q].now == ws[p].now + d
  }

  predicate SwapsAt(a: Event, b: Event, d: nat, t: nat)
    requires a.Plan? && b.Plan?
  {
    d <= t < |a.path| && t - d < |b.path| && Swap(a.start, a.path, t, b.start, b.path, t - d)
  }

  lemma {:induction false} TimeGoesOn(ws: seq<World>, es: seq<Event>, p: nat, q: nat)
    requires IsTrace(ws, es) && p <= q <= |es|
    ensures ws[p].now <= ws[q].now
    ensures ws[p].now == ws[q].now ==> forall k | p <= k < q :: es[k].Plan?
    decreases q - p
  {
    if p < q {
      TimeGoesOn(ws, es, p, q - 1);
      assert StepOf(ws, es, q - 1);
    }
  }

  // ----- one more event

  lemma Extend(ws: seq<World>, es: seq<Event>, e: Event) returns (w: World)
    requires IsTrace(ws, es) && Allowed(ws[|es|], e)
    ensures IsTrace(ws + [w], es + [e]) && Effect(ws[|es|], e, w)
  {
    var v := ws[|es|];
    match e {
    case Plan(amr, _, _, path) =>
      var owner := CommitExists(v.tab.owner, amr, path, 0);
      var calendar := CommitExists(v.calendar, amr, path, v.now);
      w := World(v.tab.(owner := owner, edges := v.tab.edges + Keyed(PlanKeys(path))), v.now, calendar);
    case Tick(marks) =>
      var owner := RefreshExists(v.tab.cols, v.tab.rows, v.tab.owner, marks);
      w := World(v.tab.(owner := owner), v.now + 1, v.calendar);
    case Clear =>
      var owner := ShiftExists(v.tab.owner);
      w := World(v.tab.(owner := owner, edges := iset{}), v.now + 1, v.calendar);
    }
    TraceGrows(ws, es, e, w);
  }

  lemma ShiftExists(before: map<Slot, string>) returns (after: map<Slot, string>)
    ensures Shifted(before, after)
  {
    var kept := set s | s in before && s.t >= 1 :: Later(s, -1);
    after := map s | s in kept :: before[Later(s, 1)];
    forall s
      ensures ShiftedAt(before, after, s)
    {
      if s.t >= 0 && Later(s, 1) in before {
        assert Later(Later(s, 1), -1) == s;
      }
    }
  }

  lemma RefreshExists(cols: nat, rows: nat, before: map<Slot, string>, marks: seq<(string, Cell)>)
    returns (after: map<Slot, string>)
    ensures Refreshed(cols, rows, before, marks, after)
  {
    after := ShiftExists(before);
    ShiftIsRefreshWithoutMarks(cols, rows, before, after);
    for i := 0 to |marks|
      invariant Refreshed(cols, rows, before, marks[..i], after)
    {
      var mid := after;
      after := if Inside(cols, rows, marks[i].1) then mid[At(marks[i].1, 0) := marks[i].0] else mid;
      RefreshedStep(cols, rows, before, marks, i, mid, after);
    }
    assert marks[..|marks|] == marks;
  }

  /** Any shifts may follow; they leave the calendar alone, and the edges too if none of them is a clear. */
  lemma ExtendByShifts(ws: seq<World>, es: seq<Event>, shifts: seq<Event>) returns (ws': seq<World>)
    requires IsTrace(ws, es) && forall k | 0 <= k < |shifts| :: shifts[k].Tick? || shifts[k].Clear?
    ensures IsTrace(ws', es + shifts) && |ws'| == |ws| + |shifts| && ws'[..|ws|] == ws
    ensures var v, w := ws[|es|], ws'[|es| + |shifts|];
      && SameGrid(v.tab, w.tab) && w.now == v.now + |shifts| && w.calendar == v.calendar
      && ((forall k | 0 <= k < |shifts| :: shifts[k].Tick?) ==> w.tab.edges == v.tab.edges)
      && (shifts != [] && shifts[|shifts| - 1].Clear? ==> w.tab.edges == iset{})
  {
    ws' := ws;
    assert es + shifts[..0] == es;
    for k := 0 to |shifts|
      invariant IsTrace(ws', es + shifts[..k]) && |ws'| == |ws| + k && ws'[..|ws|] == ws
      invariant var v, w := ws[|es|], ws'[|es| + k];
        && SameGrid(v.tab, w.tab) && w.now == v.now + k && w.calendar == v.calendar
        && ((forall i | 0 <= i < k :: shifts[i].Tick?) ==> w.tab.edges == v.tab.edges)
        && (k > 0 && shifts[k - 1].Clear? ==> w.tab.edges == iset{})
    {
      var w := Extend(ws', es + shifts[..k], shifts[k]);
      assert es + shifts[..k] + [shifts[k]] == es + shifts[..k + 1];
      ws' := ws' + [w];
    }
    assert shifts[..|shifts|] == shifts;
  }

  // ----- a plan that the planner may return

  predicate RoomAt(w: World, amr: string, path: seq<Cell>, i: nat)
    requires i < |path|
  {
    EntryOf(w.calendar, At(path[i], w.now + i + 1)) in {None, Some(amr)}
  }

  ghost predicate StepClear(tab: Tables, start: Cell, path: seq<Cell>, i: nat)
    requires i < |path|
  {
    var a, b := Position(start, path, i), path[i];
    Inside(tab.cols, tab.rows, b) && Manhattan(a, b) <= 1 && Move(b, a, i) !in tab.edges
  }

  /** A plan of Manhattan length through free slots and along unreserved edges is one the planner may return. */
  lemma DirectPlanIsAllowed(w: World, amr: string, start: Cell, goal: Cell, path: seq<Cell>)
    requires Refines(w) && |path| < w.tab.horizon && |path| == Manhattan(start, goal) && Position(start, path, |path|) == goal
    requires forall i: nat | i < |path| :: RoomAt(w, amr, path, i) && StepClear(w.tab, start, path, i)
    ensures Allowed(w, Plan(amr, start, goal, path))
  {
    forall i: nat | i < |path|
      ensures StepAt(OpenMoves(w.tab, amr), start, path, i) && path[i].x >= 0 && path[i].y >= 0
    {
      assert RoomAt(w, amr, path, i) && StepClear(w.tab, start, path, i);
      assert RefinesAt(w, At(path[i], i + 1));
    }
    ManhattanIsBest(w.tab, amr, start, goal, path);
  }

  // ----- the three plans: AMR-2 drives d cells ahead in its column; AMR-1 drives up beside it and turns right at the
  // top; d ticks later AMR-2 goes on and turns left there

  function Up(x: int, y: int, n: nat): (r: seq<Cell>)
    ensures |r| == n && forall i | 0 <= i < n :: r[i] == Cell(x, y - 1 - i)
  {
    seq(n, i => Cell(x, y - 1 - i))
  }

  function Ahead(d: nat, t: nat): Event {
    Plan("AMR-2", Cell(2, t), Cell(2, t - d), Up(2, t, d))
  }

  function Early(t: nat): Event {
    Plan("AMR-1", Cell(1, t), Cell(2, 0), Up(1, t, t) + [Cell(2, 0)])
  }

  function Late(d: nat, t: nat): Event
    requires d <= t
  {
    Plan("AMR-2", Cell(2, t - d), Cell(1, 0), Up(2, t - d, t - d) + [Cell(1, 0)])
  }

  /** As long as the Manhattan distance, so no plan is shorter (see ManhattanIsBest). */
  predicate IsDirect(e: Event) {
    e.Plan? && |e.path| == Manhattan(e.start, e.goal)
  }

  function Ticks(marks: seq<seq<(string, Cell)>>): (r: seq<Event>)
    ensures |r| == |marks| && forall k | 0 <= k < |r| :: r[k] == Tick(marks[k])
  {
    seq(|marks|, k requires 0 <= k < |marks| => Tick(marks[k]))
  }

  lemma TheySwap(d: nat, t: nat)
    requires d <= t
    ensures Early(t).amr != Late(d, t).amr && SwapsAt(Early(t), Late(d, t), d, t)
  {
    assert "AMR-1"[4] != "AMR-2"[4];
  }

  /** All three plans are shortest ones, in the key range or not. */
  lemma TheyAreDirect(d: nat, t: nat)
    requires d <= t
    ensures IsDirect(Ahead(d, t)) && IsDirect(Early(t)) && IsDirect(Late(d, t))
  {
  }

  function Grid(t: nat): World {
    World(Tables(3, t + 1, t + 8, map[], iset{}), 0, map[])
  }

  /** The calendar after a commit, slot by slot. */
  lemma CommittedSlot(w: World, e: Event, w': World, s: Slot)
    requires Effect(w, e, w') && e.Plan?
    ensures EntryOf(w'.calendar, s) == if Occupies(e.path, w.now, s) then Some(e.amr) else EntryOf(w.calendar, s)
  {
    assert CommittedAt(w.calendar, e.amr, e.path, w.now, w'.calendar, s);
  }

  /** A plan below 4096 reserves no move but its own. */
  lemma NotReserved(plan: seq<Cell>, m: Move)
    requires |plan| <= PackedKeys.FIELD && forall i | 0 <= i < |plan| :: InKeyRange(plan[i])
    requires InKeyRange(m.from) && InKeyRange(m.to) && 0 <= m.t < PackedKeys.FIELD
    requires 1 <= m.t < |plan| ==> MoveAt(plan, m.t) != m
    ensures m !in Keyed(PlanKeys(plan))
  {
    KeysReserveOwnMoves(plan, m);
  }

  /** AMR-1's plan beside AMR-2's: their cells and edges are apart. */
  lemma EarlyIsAllowed(w: World, d: nat, t: nat)
    requires d <= t && Refines(w) && w.now == 0 && SameGrid(w.tab, Grid(t).tab)
    requires forall s :: EntryOf(w.calendar, s) == None || Occupies(Ahead(d, t).path, 0, s)
    requires w.tab.edges == iset{} || (t < PackedKeys.FIELD && w.tab.edges == Keyed(PlanKeys(Ahead(d, t).path)))
    ensures Allowed(w, Early(t))
  {
    var path := Early(t).path;
    forall i: nat | i < |path|
      ensures RoomAt(w, "AMR-1", path, i) && StepClear(w.tab, Cell(1, t), path, i)
    {
      assert !Occupies(Ahead(d, t).path, 0, At(path[i], i + 1));
      if w.tab.edges != iset{} {
        NotReserved(Ahead(d, t).path, Move(path[i], Position(Cell(1, t), path, i), i));
      }
    }
    DirectPlanIsAllowed(w, "AMR-1", Cell(1, t), Cell(2, 0), path);
  }

  predicate MeetsAt(calendar: map<Slot, string>, t: nat, s: Slot) {
    EntryOf(calendar, s) in {None, Some("AMR-2")} || Occupies(Early(t).path, 0, s)
  }

  /** What AMR-2's second plan finds at time `now`: AMR-1's reservations, and no edges but those of the two plans. */
  ghost predicate MeetsEarly(w: World, now: nat, d: nat, t: nat) {
    && w.now == now && SameGrid(w.tab, Grid(t).tab)
    && (forall s :: MeetsAt(w.calendar, t, s))
    && (w.tab.edges == iset{}
        || (t < PackedKeys.FIELD && w.tab.edges == Keyed(PlanKeys(Ahead(d, t).path)) + Keyed(PlanKeys(Early(t).path))))
  }

  lemma LateMeetsNoEdge(d: nat, t: nat, i: nat)
    requires d <= t < PackedKeys.FIELD && (d == 0 ==> t == 0) && i < |Late(d, t).path|
    ensures var back := Move(Late(d, t).path[i], Position(Cell(2, t - d), Late(d, t).path, i), i);
      back !in Keyed(PlanKeys(Ahead(d, t).path)) + Keyed(PlanKeys(Early(t).path))
  {
    var back := Move(Late(d, t).path[i], Position(Cell(2, t - d), Late(d, t).path, i), i);
    NotReserved(Ahead(d, t).path, back);
    NotReserved(Early(t).path, back);
  }

  /** AMR-2's second plan, d ticks later: AMR-1 is always one column aside, and the edge that AMR-1 reserved into the
      column still carries tick t, not t - d. */
  lemma LateIsAllowed(w: World, d: nat, t: nat)
    requires d <= t && (d == 0 ==> t == 0) && Refines(w) && MeetsEarly(w, d, d, t)
    ensures Allowed(w, Late(d, t))
  {
    var path := Late(d, t).path;
    forall i: nat | i < |path|
      ensures RoomAt(w, "AMR-2", path, i) && StepClear(w.tab, Cell(2, t - d), path, i)
    {
      LateStep(w, d, t, i);
    }
    DirectPlanIsAllowed(w, "AMR-2", Cell(2, t - d), Cell(1, 0), path);
  }

  lemma LateStep(w: World, d: nat, t: nat, i: nat)
    requires d <= t && (d == 0 ==> t == 0) && MeetsEarly(w, d, d, t) && i < |Late(d, t).path|
    ensures RoomAt(w, "AMR-2", Late(d, t).path, i) && StepClear(w.tab, Cell(2, t - d), Late(d, t).path, i)
  {
    assert MeetsAt(w.calendar, t, At(Late(d, t).path[i], d + i + 1));
    if w.tab.edges != iset{} {
      LateMeetsNoEdge(d, t, i);
    }
  }

  lemma AheadIsAllowed(d: nat, t: nat)
    requires d <= t
    ensures Allowed(Grid(t), Ahead(d, t))
  {
    var w, path := Grid(t), Ahead(d, t).path;
    EmptyRefines(w);
    forall i: nat | i < |path|
      ensures RoomAt(w, "AMR-2", path, i) && StepClear(w.tab, Cell(2, t), path, i)
    {
    }
    DirectPlanIsAllowed(w, "AMR-2", Cell(2, t), Cell(2, t - d), path);
  }

  /** The run up to AMR-1's plan, from the fleet's homes in a grid of three columns; without AMR-2's first drive if
      `ahead` is false. */
  lemma StartRun(d: nat, t: nat, ahead: bool) returns (ws: seq<World>, es: seq<Event>)
    requires d <= t && (ahead ==> t < PackedKeys.FIELD)
    ensures es == (if ahead then [Ahead(d, t)] else []) + [Early(t)] && IsRun(ws, es) && ws[0] == Grid(t)
    ensures var v, w := ws[|es| - 1], ws[|es|];
      && v.now == 0 && SameGrid(v.tab, Grid(t).tab)
      && MeetsEarly(w.(tab := w.tab.(edges := iset{})), 0, d, t) && (ahead || t == 0 ==> MeetsEarly(w, 0, d, t))
  {
    ws, es := [Grid(t)], [];
    var v := Grid(t);
    EmptyRefines(v);
    if ahead {
      AheadIsAllowed(d, t);
      var w := Extend(ws, es, Ahead(d, t));
      forall s
        ensures EntryOf(w.calendar, s) == None || Occupies(Ahead(d, t).path, 0, s)
      {
        CommittedSlot(v, Ahead(d, t), w, s);
      }
      StepRefines(v, Ahead(d, t), w);
      v, ws, es := w, ws + [w], es + [Ahead(d, t)];
      assert v.tab.edges == Keyed(PlanKeys(Ahead(d, t).path));
    }
    EarlyIsAllowed(v, d, t);
    var w := Extend(ws, es, Early(t));
    forall s
      ensures MeetsAt(w.calendar, t, s)
    {
      CommittedSlot(v, Early(t), w, s);
      assert ahead ==> Effect(Grid(t), Ahead(d, t), v);
      if ahead {
        CommittedSlot(Grid(t), Ahead(d, t), v, s);
      }
    }
    if t == 0 && !ahead {
      assert PlanKeys(Early(0).path) == {};
    }
    ws, es := ws + [w], es + [Early(t)];
  }

  /** The shifts in between. */
  lemma MiddleRun(d: nat, t: nat, ahead: bool, shifts: seq<Event>) returns (ws: seq<World>, es: seq<Event>)
    requires d <= t && (d == 0 ==> t == 0) && (ahead ==> t < PackedKeys.FIELD)
    requires |shifts| == d && forall k | 0 <= k < d :: if ahead then shifts[k].Tick? else shifts[k].Clear?
    ensures es == (if ahead then [Ahead(d, t)] else []) + [Early(t)] && IsRun(ws, es + shifts) && ws[0] == Grid(t)
    ensures var v, w := ws[|es| - 1], ws[|es| + d];
      && v.now == 0 && SameGrid(v.tab, Grid(t).tab) && w.now == d && SameGrid(w.tab, Grid(t).tab) && Allowed(w, Late(d, t))
  {
    var ws1;
    ws1, es := StartRun(d, t, ahead);
    ws := ExtendByShifts(ws1, es, shifts);
    assert ws[|es| - 1] == ws1[|es| - 1];
    RunRefines(ws, es + shifts, |es| + d);
    LateIsAllowed(ws[|es| + d], d, t);
  }

  /** And on to AMR-2's plan, after d shifts: event p is AMR-1's plan and the last one AMR-2's. */
  lemma FinishRun(d: nat, t: nat, ahead: bool, shifts: seq<Event>) returns (ws: seq<World>, es: seq<Event>, p: nat)
    requires d <= t && (d == 0 ==> t == 0) && (ahead ==> t < PackedKeys.FIELD)
    requires |shifts| == d && forall k | 0 <= k < d :: if ahead then shifts[k].Tick? else shifts[k].Clear?
    ensures p == (if ahead then 1 else 0) && IsRun(ws, es) && ws[0] == Grid(t) && |es| == p + d + 2
    ensures (ahead ==> es[0] == Ahead(d, t)) && es[p] == Early(t) && es[p + 1..p + 1 + d] == shifts && es[p + d + 1] == Late(d, t)
    ensures ws[p].now == 0 && SameGrid(ws[p].tab, Grid(t).tab)
    ensures ws[p + d + 1].now == d && SameGrid(ws[p + d + 1].tab, Grid(t).tab)
  {
    ws, es := MiddleRun(d, t, ahead, shifts);
    p := |es| - 1;
    ws, es := JoinLast(ws, es, shifts, Late(d, t));
  }

  lemma JoinLast(ws1: seq<World>, es1: seq<Event>, shifts: seq<Event>, e: Event) returns (ws: seq<World>, es: seq<Event>)
    requires es1 != [] && IsRun(ws1, es1 + shifts) && Allowed(ws1[|es1| + |shifts|], e)
    ensures IsRun(ws, es) && |es| == |es1| + |shifts| + 1 && es[..|es1|] == es1
    ensures es[|es1|..|es1| + |shifts|] == shifts && es[|es| - 1] == e
    ensures ws[0] == ws1[0] && ws[|es1| - 1] == ws1[|es1| - 1] && ws[|es| - 1] == ws1[|es| - 1]
  {
    var last := Extend(ws1, es1 + shifts, e);
    ws, es := ws1 + [last], es1 + shifts + [e];
  }

  /** Recorded edges keep their relative tick while the vertices shift. So after any number d >= 1 of refreshes, with
      any presence marks, AMR-2 is given a shortest plan that swaps with AMR-1's shortest plan, even on a recorded
      edge. Without a shift that is possible on the first edge only. */
  lemma SwapAcrossTicks(d: nat, t: nat, marks: seq<seq<(string, Cell)>>) returns (ws: seq<World>, es: seq<Event>, p: nat)
    requires d <= t < PackedKeys.FIELD && (d == 0 ==> t == 0) && |marks| == d
    ensures p == 1 && IsPair(ws, es, p, p + d + 1, d) && SwapsAt(es[p], es[p + d + 1], d, t)
    ensures es[p] == Early(t) && es[p + d + 1] == Late(d, t)
    ensures ws[0] == Grid(t) && es[0] == Ahead(d, t) && es[p + 1..p + 1 + d] == Ticks(marks)
    ensures t + 8 <= PackedKeys.FIELD ==> FitsKeys(ws[p].tab, es[p].start) && FitsKeys(ws[p + d + 1].tab, es[p + d + 1].start)
  {
    ws, es, p := FinishRun(d, t, true, Ticks(marks));
    SwappingPair(ws, es, p, d, t);
  }

  lemma SwappingPair(ws: seq<World>, es: seq<Event>, p: nat, d: nat, t: nat)
    requires d <= t && IsRun(ws, es) && |es| == p + d + 2 && es[p] == Early(t) && es[p + d + 1] == Late(d, t)
    requires ws[p].now == 0 && ws[p + d + 1].now == d
    ensures IsPair(ws, es, p, p + d + 1, d) && SwapsAt(es[p], es[p + d + 1], d, t)
  {
    TheySwap(d, t);
  }

  lemma NoSwapInPair(ws: seq<World>, es: seq<Event>, p: nat, q: nat, t: nat)
    requires t >= 1 && IsPair(ws, es, p, q, 0)
    ensures !SwapsAt(es[p], es[q], 0, t)
  {
    TimeGoesOn(ws, es, p, q);
    if SwapsAt(es[p], es[q], 0, t) {
      NoSwapWithinTick(ws, es, p, q, t);
    }
  }

  /** Some run has such a swap. */
  lemma SwapExists(d: nat, t: nat) returns (ws: seq<World>, es: seq<Event>, p: nat)
    requires d <= t && (d == 0 ==> t == 0)
    ensures IsPair(ws, es, p, p + d + 1, d) && SwapsAt(es[p], es[p + d + 1], d, t)
  {
    if t < PackedKeys.FIELD {
      ws, es, p := FinishRun(d, t, true, Ticks(seq(d, k => [])));
    } else {
      ws, es, p := FinishRun(d, t, false, seq(d, k => Clear));
    }
    SwappingPair(ws, es, p, d, t);
  }

  /** As long as the earlier plan's tick t is not over when the later one is made, swaps are excluded exactly between
      plans of one tick, from the second edge on. */
  lemma SwapFreeApartIff(d: nat, t: nat)
    ensures SwapFreeApart(d, t) <==> t < d || (d == 0 && t >= 1)
  {
    if t < d {
    } else if d == 0 && t >= 1 {
      forall ws: seq<World>, es: seq<Event>, p: nat, q: nat | IsPair(ws, es, p, q, d)
        ensures !SwapsAt(es[p], es[q], d, t)
      {
        NoSwapInPair(ws, es, p, q, t);
      }
    } else {
      var ws, es, p := SwapExists(d, t);
    }
  }
}
