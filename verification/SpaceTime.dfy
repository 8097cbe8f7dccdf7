/** What the planner's tables mean: the reservation table and the edge set as values, feasible plans through
    them, and what committing a plan or shifting the table does to them. */
module SpaceTime {
  import opened Wrappers
  import opened PackedKeys

  datatype Cell = Cell(x: int, y: int)

  /** One entry of the reservation table: a cell and the number of ticks ahead. */
  datatype Slot = Slot(x: int, y: int, t: int)

  /** Crossing from one cell to another, leaving at tick t. */
  datatype Move = Move(from: Cell, to: Cell, t: int)

  /** `owner` holds the non-null entries of `reservedBy`; `edges` the moves whose packed key is in
      `edgeReservations`. */
  datatype Tables = Tables(cols: nat, rows: nat, horizon: nat, owner: map<Slot, string>, edges: iset<Move>)

  predicate Inside(cols: nat, rows: nat, c: Cell) {
    0 <= c.x < cols && 0 <= c.y < rows
  }

  /** The size within which the keys of all search states are unique (see PackedKeys.StateKeysInjectiveIff); the start
      may lie outside the grid, but not outside the rows that its key can hold. */
  predicate FitsKeys(tab: Tables, start: Cell) {
    tab.horizon <= TickRange(tab.rows) && tab.rows <= RowRange(tab.rows) && start.y < RowRange(tab.rows)
  }

  function At(c: Cell, t: int): Slot {
    Slot(c.x, c.y, t)
  }

  function Manhattan(a: Cell, b: Cell): nat {
    Abs(b.x - a.x) + Abs(b.y - a.y)
  }

  function EntryOf(owner: map<Slot, string>, s: Slot): Option<string> {
    if s in owner then Some(owner[s]) else None
  }

  predicate Foreign(tab: Tables, amr: string, c: Cell, t: int) {
    var e := EntryOf(tab.owner, At(c, t));
    e.Some? && e.value != amr
  }

  /** Going from `a` at tick t to `b` at tick t+1: one cell or a wait, inside the grid, not into a slot of
      another AMR, and not along an edge reserved in the opposite direction for the same departure. */
  ghost predicate CanStep(tab: Tables, amr: string, a: Cell, b: Cell, t: int) {
    && Inside(tab.cols, tab.rows, b)
    && Manhattan(a, b) <= 1
    && !Foreign(tab, amr, b, t + 1)
    && (a != b ==> Move(b, a, t) !in tab.edges)
  }

  /** Where the plan is at tick i; the plan's list does not contain the start cell. */
  function Position(start: Cell, plan: seq<Cell>, i: nat): Cell
    requires i <= |plan|
  {
    if i == 0 then start else plan[i - 1]
  }

  /** All moves the tables leave open to one AMR. */
  ghost function OpenMoves(tab: Tables, amr: string): iset<Move> {
    iset m: Move | m.t >= 0 && CanStep(tab, amr, m.from, m.to, m.t)
  }

  /** Moves go at most one cell. */
  ghost predicate ShortMoves(moves: iset<Move>) {
    forall m | m in moves :: Manhattan(m.from, m.to) <= 1
  }

  ghost predicate StepAt(moves: iset<Move>, start: Cell, plan: seq<Cell>, i: nat)
    requires i < |plan|
  {
    Move(Position(start, plan, i), Position(start, plan, i + 1), i) in moves
  }

  /** A plan whose every tick is one of the moves; it ends before the horizon. */
  ghost predicate Walk(moves: iset<Move>, horizon: int, start: Cell, plan: seq<Cell>) {
    && |plan| < horizon
    && forall i: nat | i < |plan| :: StepAt(moves, start, plan, i)
  }

  ghost predicate Reaches(moves: iset<Move>, horizon: int, start: Cell, goal: Cell, plan: seq<Cell>) {
    Walk(moves, horizon, start, plan) && Position(start, plan, |plan|) == goal
  }

  /** A plan for one AMR that respects the tables. */
  ghost predicate Feasible(tab: Tables, amr: string, start: Cell, goal: Cell, plan: seq<Cell>) {
    Reaches(OpenMoves(tab, amr), tab.horizon, start, goal, plan)
  }

  ghost predicate Shortest(moves: iset<Move>, horizon: int, start: Cell, goal: Cell, plan: seq<Cell>) {
    && Reaches(moves, horizon, start, goal, plan)
    && forall other :: Reaches(moves, horizon, start, goal, other) ==> |plan| <= |other|
  }

  ghost predicate Unreachable(moves: iset<Move>, horizon: int, start: Cell, goal: Cell) {
    forall plan :: !Reaches(moves, horizon, start, goal, plan)
  }

  /** What the planner promises: a shortest plan, or none because there is none before the horizon. */
  ghost predicate Best(tab: Tables, amr: string, start: Cell, goal: Cell, path: Option<seq<Cell>>) {
    match path
    case Some(plan) => Shortest(OpenMoves(tab, amr), tab.horizon, start, goal, plan)
    case None => Unreachable(OpenMoves(tab, amr), tab.horizon, start, goal)
  }

  lemma ManhattanTriangle(a: Cell, b: Cell, c: Cell)
    ensures Manhattan(a, c) <= Manhattan(a, b) + Manhattan(b, c)
  {
  }

  /** The heuristic never overestimates: at tick i at least Manhattan ticks remain. */
  lemma {:induction false} RemainingSteps(moves: iset<Move>, horizon: int, start: Cell, plan: seq<Cell>, i: nat)
    requires ShortMoves(moves) && Walk(moves, horizon, start, plan) && i <= |plan|
    ensures i + Manhattan(Position(start, plan, i), Position(start, plan, |plan|)) <= |plan|
    decreases |plan| - i
  {
    if i < |plan| {
      var a, b, c := Position(start, plan, i), plan[i], Position(start, plan, |plan|);
      assert Manhattan(a, b) <= 1 by { assert StepAt(moves, start, plan, i); }
      RemainingSteps(moves, horizon, start, plan, i + 1);
      ManhattanTriangle(a, b, c);
    }
  }

  /** A plan of Manhattan length cannot be beaten. */
  lemma ManhattanIsBest(tab: Tables, amr: string, start: Cell, goal: Cell, plan: seq<Cell>)
    requires Feasible(tab, amr, start, goal, plan) && |plan| == Manhattan(start, goal)
    ensures Best(tab, amr, start, goal, Some(plan))
  {
    var moves := OpenMoves(tab, amr);
    forall other | Reaches(moves, tab.horizon, start, goal, other)
      ensures |plan| <= |other|
    {
      RemainingSteps(moves, tab.horizon, start, other, 0);
    }
  }

  // ----- what the writes do to the entries

  predicate Occupies(plan: seq<Cell>, now: nat, s: Slot) {
    now < s.t <= now + |plan| && plan[s.t - now - 1] == Cell(s.x, s.y)
  }

  /** A plan made at time `now` takes its cell i at time now + i + 1; the relative table uses now = 0. */
  ghost predicate Committed(before: map<Slot, string>, amr: string, plan: seq<Cell>, now: nat, after: map<Slot, string>) {
    forall s :: CommittedAt(before, amr, plan, now, after, s)
  }

  predicate CommittedAt(before: map<Slot, string>, amr: string, plan: seq<Cell>, now: nat, after: map<Slot, string>, s: Slot) {
    EntryOf(after, s) == if Occupies(plan, now, s) then Some(amr) else EntryOf(before, s)
  }

  lemma CommittedStep(before: map<Slot, string>, amr: string, plan: seq<Cell>, now: nat, t: nat,
                      mid: map<Slot, string>, after: map<Slot, string>)
    requires t < |plan| && Committed(before, amr, plan[..t], now, mid) && after == mid[At(plan[t], now + t + 1) := amr]
    ensures Committed(before, amr, plan[..t + 1], now, after)
  {
    var p := plan[..t + 1];
    forall s
      ensures CommittedAt(before, amr, p, now, after, s)
    {
      assert CommittedAt(before, amr, plan[..t], now, mid, s);
    }
  }

  lemma CommitExists(before: map<Slot, string>, amr: string, plan: seq<Cell>, now: nat) returns (after: map<Slot, string>)
    ensures Committed(before, amr, plan, now, after)
  {
    after := before;
    for t := 0 to |plan|
      invariant Committed(before, amr, plan[..t], now, after)
    {
      var mid := after;
      after := mid[At(plan[t], now + t + 1) := amr];
      CommittedStep(before, amr, plan, now, t, mid, after);
    }
    assert plan[..|plan|] == plan;
  }

  function Later(s: Slot, d: int): Slot {
    Slot(s.x, s.y, s.t + d)
  }

  /** Every entry moves one tick nearer; index 0 drops out. */
  ghost predicate Shifted(before: map<Slot, string>, after: map<Slot, string>) {
    forall s :: ShiftedAt(before, after, s)
  }

  predicate ShiftedAt(before: map<Slot, string>, after: map<Slot, string>, s: Slot) {
    EntryOf(after, s) == if s.t >= 0 then EntryOf(before, Later(s, 1)) else None
  }

  /** The id that the presence marks, written in order into index 0, leave in a slot. */
  function MarkIn(cols: nat, rows: nat, marks: seq<(string, Cell)>, s: Slot): Option<string> {
    if marks == [] then None
    else
      var n := |marks| - 1;
      if Inside(cols, rows, marks[n].1) && s == At(marks[n].1, 0) then Some(marks[n].0)
      else MarkIn(cols, rows, marks[..n], s)
  }

  /** The per-tick refresh: the shift, then the fleet's presence in index 0. */
  ghost predicate Refreshed(cols: nat, rows: nat, before: map<Slot, string>, marks: seq<(string, Cell)>, after: map<Slot, string>) {
    forall s :: RefreshedAt(cols, rows, before, marks, after, s)
  }

  predicate RefreshedAt(cols: nat, rows: nat, before: map<Slot, string>, marks: seq<(string, Cell)>, after: map<Slot, string>, s: Slot) {
    EntryOf(after, s) ==
    if MarkIn(cols, rows, marks, s).Some? then MarkIn(cols, rows, marks, s)
    else if s.t >= 0 then EntryOf(before, Later(s, 1)) else None
  }

  lemma ShiftIsRefreshWithoutMarks(cols: nat, rows: nat, before: map<Slot, string>, after: map<Slot, string>)
    requires Shifted(before, after)
    ensures Refreshed(cols, rows, before, [], after)
  {
    forall s
      ensures RefreshedAt(cols, rows, before, [], after, s)
    {
      assert ShiftedAt(before, after, s);
    }
  }

  lemma RefreshedStep(cols: nat, rows: nat, before: map<Slot, string>, marks: seq<(string, Cell)>, i: nat,
                      mid: map<Slot, string>, after: map<Slot, string>)
    requires i < |marks| && Refreshed(cols, rows, before, marks[..i], mid)
    requires after == if Inside(cols, rows, marks[i].1) then mid[At(marks[i].1, 0) := marks[i].0] else mid
    ensures Refreshed(cols, rows, before, marks[..i + 1], after)
  {
    var ms := marks[..i + 1];
    assert ms[..i] == marks[..i];
    forall s
      ensures RefreshedAt(cols, rows, before, ms, after, s)
    {
      assert RefreshedAt(cols, rows, before, marks[..i], mid, s);
    }
  }

  lemma {:induction false} MarksAtZero(cols: nat, rows: nat, marks: seq<(string, Cell)>, s: Slot)
    requires s.t != 0
    ensures MarkIn(cols, rows, marks, s) == None
  {
    if marks != [] {
      MarksAtZero(cols, rows, marks[..|marks| - 1], s);
    }
  }

  // ----- the edges of a plan

  predicate Natural(m: Move) {
    m.from.x >= 0 && m.from.y >= 0 && m.to.x >= 0 && m.to.y >= 0 && m.t >= 0
  }

  /** The packed key of a move. */
  function MoveKey(m: Move): nat
    requires Natural(m)
  {
    EdgeKey(m.from.x, m.from.y, m.to.x, m.to.y, m.t)
  }

  /** All moves that a set of keys reserves. */
  ghost function Keyed(keys: set<nat>): iset<Move> {
    iset m: Move | Natural(m) && MoveKey(m) in keys
  }

  /** The move of a plan that leaves at tick t >= 1. */
  function MoveAt(plan: seq<Cell>, t: nat): Move
    requires 1 <= t < |plan|
  {
    Move(plan[t - 1], plan[t], t)
  }

  predicate AllNatural(plan: seq<Cell>) {
    forall i | 0 <= i < |plan| :: plan[i].x >= 0 && plan[i].y >= 0
  }

  /** The keys a commit records: no waits, and not the edge out of the start cell. */
  function PlanKeys(plan: seq<Cell>): set<nat> {
    set t | 1 <= t < |plan| && Natural(MoveAt(plan, t)) && MoveAt(plan, t).from != MoveAt(plan, t).to
      :: MoveKey(MoveAt(plan, t))
  }

  lemma KeyedUnion(a: set<nat>, b: set<nat>)
    ensures Keyed(a + b) == Keyed(a) + Keyed(b)
  {
  }

  function KeyInto(prevX: int, prevY: int, c: Cell, t: nat): set<nat>
    requires c.x >= 0 && c.y >= 0 && (prevX >= 0 ==> prevY >= 0)
  {
    if prevX >= 0 && (prevX != c.x || prevY != c.y) then {EdgeKey(prevX, prevY, c.x, c.y, t)} else {}
  }

  /** One more entry of a committed plan adds the key of the move into it, unless it is the first or a wait. */
  lemma PlanKeysStep(plan: seq<Cell>, t: nat, prevX: int, prevY: int)
    requires AllNatural(plan) && t < |plan|
    requires if t == 0 then prevX == prevY == -1 else prevX == plan[t - 1].x && prevY == plan[t - 1].y
    ensures PlanKeys(plan[..t + 1]) == PlanKeys(plan[..t]) + KeyInto(prevX, prevY, plan[t], t)
  {
    var p, q := plan[..t + 1], plan[..t];
    forall i: nat | 1 <= i < t
      ensures MoveAt(p, i) == MoveAt(q, i)
    {
    }
    if t >= 1 {
      assert MoveAt(p, t) == Move(plan[t - 1], plan[t], t);
    }
  }

  predicate InKeyRange(c: Cell) {
    0 <= c.x < FIELD && 0 <= c.y < FIELD
  }

  /** On coordinates and ticks below 4096 a commit reserves exactly the plan's own moves. */
  lemma KeysReserveOwnMoves(plan: seq<Cell>, m: Move)
    requires AllNatural(plan) && |plan| <= FIELD && forall i | 0 <= i < |plan| :: InKeyRange(plan[i])
    requires InKeyRange(m.from) && InKeyRange(m.to) && 0 <= m.t < FIELD
    ensures m in Keyed(PlanKeys(plan)) <==> (1 <= m.t < |plan| && m.from != m.to && MoveAt(plan, m.t) == m)
  {
    if m in Keyed(PlanKeys(plan)) {
      var t :| 1 <= t < |plan| && MoveAt(plan, t).from != MoveAt(plan, t).to && MoveKey(m) == MoveKey(MoveAt(plan, t));
      var k := MoveAt(plan, t);
      EdgeKeyUnique(m.from.x, m.from.y, m.to.x, m.to.y, m.t, k.from.x, k.from.y, k.to.x, k.to.y, k.t);
    }
  }

  // ----- the three operations on the tables

  predicate SameGrid(a: Tables, b: Tables) {
    a.cols == b.cols && a.rows == b.rows && a.horizon == b.horizon
  }

  ghost predicate CommitTo(a: Tables, amr: string, plan: seq<Cell>, b: Tables) {
    SameGrid(a, b) && Committed(a.owner, amr, plan, 0, b.owner) && b.edges == a.edges + Keyed(PlanKeys(plan))
  }

  /** Per tick: vertices shift, edges stay as they are. */
  ghost predicate RefreshTo(a: Tables, marks: seq<(string, Cell)>, b: Tables) {
    SameGrid(a, b) && Refreshed(a.cols, a.rows, a.owner, marks, b.owner) && b.edges == a.edges
  }

  /** The supervisor's clear: vertices shift, all edges are forgotten. */
  ghost predicate ClearTo(a: Tables, b: Tables) {
    SameGrid(a, b) && Shifted(a.owner, b.owner) && b.edges == iset{}
  }
}
