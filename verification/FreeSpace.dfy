/** Planning in an unobstructed grid: the horizon `cols + rows + 4` always suffices, and the shortest plan is
    exactly as long as the Manhattan distance. The horizontal-then-vertical walk is the witness. */
module FreeSpace {
  import opened Wrappers
  import opened SpaceTime

  function Sign(d: int): int {
    if d > 0 then 1 else if d < 0 then -1 else 0
  }

  /** The cell that the walk enters at step i: first along x, then along y. */
  function WalkCell(a: Cell, b: Cell, i: nat): Cell {
    var dx := Abs(b.x - a.x);
    if i < dx then Cell(a.x + Sign(b.x - a.x) * (i + 1), a.y)
    else Cell(b.x, a.y + Sign(b.y - a.y) * (i - dx + 1))
  }

  function ManhattanWalk(a: Cell, b: Cell): seq<Cell> {
    seq(Manhattan(a, b), i requires 0 <= i => WalkCell(a, b, i))
  }

  /** `manhattanPath`: two runs, each guarded by a step limit. */
  method ManhattanPath(gridCols: nat, gridRows: nat, a: Cell, b: Cell) returns (pts: seq<Cell>, truncated: bool)
    ensures truncated <==> Abs(b.x - a.x) > 2 * (gridCols + gridRows) + 4 || Abs(b.y - a.y) > 2 * (gridCols + gridRows) + 4
    ensures Inside(gridCols, gridRows, a) && Inside(gridCols, gridRows, b) ==> !truncated
    ensures !truncated ==> pts == if a == b then [b] else ManhattanWalk(a, b)
  {
    pts := [];
    var maxSteps := 2 * (gridCols + gridRows) + 4;
    var dx, dy := Abs(b.x - a.x), Abs(b.y - a.y);
    var x, stepX, guard := a.x, Sign(b.x - a.x), 0;
    while x != b.x
      invariant 0 <= guard <= dx && guard <= maxSteps && x == a.x + stepX * guard
      invariant |pts| == guard && forall i | 0 <= i < guard :: pts[i] == WalkCell(a, b, i)
      decreases dx - guard
    {
      x := x + stepX;
      pts := pts + [Cell(x, a.y)];
      guard := guard + 1;
      if guard > maxSteps {
        return pts, true;
      }
    }
    assert guard == dx;
    var y, stepY := a.y, Sign(b.y - a.y);
    guard := 0;
    while y != b.y
      invariant 0 <= guard <= dy && guard <= maxSteps && y == a.y + stepY * guard
      invariant |pts| == dx + guard && forall i | 0 <= i < dx + guard :: pts[i] == WalkCell(a, b, i)
      decreases dy - guard
    {
      y := y + stepY;
      pts := pts + [Cell(b.x, y)];
      guard := guard + 1;
      if guard > maxSteps {
        return pts, true;
      }
    }
    if |pts| == 0 {
      pts := [b];
    }
    truncated := false;
  }

  /** No slot ahead is foreign to the AMR. */
  ghost predicate NoForeign(tab: Tables, amr: string) {
    forall s: Slot | s in tab.owner && s.t >= 1 :: tab.owner[s] == amr
  }

  /** Nothing stands in the way of one AMR: no slot ahead is foreign and no edge is reserved. */
  ghost predicate Unobstructed(tab: Tables, amr: string) {
    NoForeign(tab, amr) && tab.edges == iset{}
  }

  predicate BothInside(tab: Tables, a: Cell, b: Cell) {
    Inside(tab.cols, tab.rows, a) && Inside(tab.cols, tab.rows, b) && tab.horizon == tab.cols + tab.rows + 4
  }

  lemma WalkIsFeasible(tab: Tables, amr: string, a: Cell, b: Cell)
    requires Unobstructed(tab, amr) && BothInside(tab, a, b)
    ensures Feasible(tab, amr, a, b, ManhattanWalk(a, b))
  {
    var plan := ManhattanWalk(a, b);
    forall i: nat | i < |plan|
      ensures StepAt(OpenMoves(tab, amr), a, plan, i)
    {
      assert plan[i] == WalkCell(a, b, i);
      assert i > 0 ==> plan[i - 1] == WalkCell(a, b, i - 1);
      assert CanStep(tab, amr, Position(a, plan, i), plan[i], i);
    }
    assert |plan| > 0 ==> plan[|plan| - 1] == WalkCell(a, b, |plan| - 1);
  }

  /** In an unobstructed grid the planner always answers, with a plan of exactly the Manhattan length. */
  lemma FreeGridPlanLength(tab: Tables, amr: string, a: Cell, b: Cell, path: Option<seq<Cell>>)
    requires Unobstructed(tab, amr) && BothInside(tab, a, b) && Best(tab, amr, a, b, path)
    ensures path.Some? && |path.value| == Manhattan(a, b)
  {
    WalkIsFeasible(tab, amr, a, b);
    if path.Some? {
      RemainingSteps(OpenMoves(tab, amr), tab.horizon, a, path.value, 0);
    }
  }

  // ----- with edges left over from earlier plans, the AMR's own included

  /** A walk from a to b that comes one cell nearer in every step. */
  predicate Monotone(a: Cell, b: Cell, plan: seq<Cell>) {
    Position(a, plan, |plan|) == b && forall i: nat | i < |plan| :: NearerAt(a, b, plan, i)
  }

  predicate NearerAt(a: Cell, b: Cell, plan: seq<Cell>, i: nat)
    requires i < |plan|
  {
    var c, d := Position(a, plan, i), plan[i];
    Manhattan(c, d) == 1 && Manhattan(d, b) == Manhattan(c, b) - 1
  }

  ghost predicate Unreserved(tab: Tables, a: Cell, plan: seq<Cell>) {
    forall i: nat | i < |plan| :: UnreservedAt(tab, a, plan, i)
  }

  ghost predicate UnreservedAt(tab: Tables, a: Cell, plan: seq<Cell>, i: nat)
    requires i < |plan|
  {
    Move(plan[i], Position(a, plan, i), i) !in tab.edges
  }

  lemma {:induction false} MonotoneDistance(a: Cell, b: Cell, plan: seq<Cell>, i: nat)
    requires Monotone(a, b, plan) && i <= |plan|
    ensures Manhattan(Position(a, plan, i), b) == |plan| - i
    decreases |plan| - i
  {
    if i < |plan| {
      MonotoneDistance(a, b, plan, i + 1);
      assert NearerAt(a, b, plan, i);
    }
  }

  /** A step towards a cell of the grid stays in the grid. */
  lemma {:induction false} MonotoneInside(tab: Tables, a: Cell, b: Cell, plan: seq<Cell>, i: nat)
    requires Monotone(a, b, plan) && BothInside(tab, a, b) && i <= |plan|
    ensures Inside(tab.cols, tab.rows, Position(a, plan, i))
  {
    if i > 0 {
      MonotoneInside(tab, a, b, plan, i - 1);
      assert NearerAt(a, b, plan, i - 1);
    }
  }

  lemma MonotoneIsFeasible(tab: Tables, amr: string, a: Cell, b: Cell, plan: seq<Cell>)
    requires NoForeign(tab, amr) && BothInside(tab, a, b) && Monotone(a, b, plan) && Unreserved(tab, a, plan)
    ensures Feasible(tab, amr, a, b, plan) && |plan| == Manhattan(a, b)
  {
    MonotoneDistance(a, b, plan, 0);
    forall i: nat | i < |plan|
      ensures StepAt(OpenMoves(tab, amr), a, plan, i)
    {
      MonotoneInside(tab, a, b, plan, i + 1);
      assert NearerAt(a, b, plan, i) && UnreservedAt(tab, a, plan, i);
    }
  }

  lemma DirectIsMonotone(tab: Tables, amr: string, a: Cell, b: Cell, plan: seq<Cell>)
    requires Feasible(tab, amr, a, b, plan) && |plan| == Manhattan(a, b)
    ensures Monotone(a, b, plan) && Unreserved(tab, a, plan)
  {
    var moves := OpenMoves(tab, amr);
    forall i: nat | i < |plan|
      ensures NearerAt(a, b, plan, i) && UnreservedAt(tab, a, plan, i)
    {
      assert StepAt(moves, a, plan, i);
      RemainingSteps(moves, tab.horizon, a, plan, i);
      RemainingSteps(moves, tab.horizon, a, plan, i + 1);
      StepsSoFar(moves, tab.horizon, a, plan, i);
      StepsSoFar(moves, tab.horizon, a, plan, i + 1);
      ManhattanTriangle(a, Position(a, plan, i), b);
      ManhattanTriangle(a, Position(a, plan, i + 1), b);
    }
  }

  lemma {:induction false} StepsSoFar(moves: iset<Move>, horizon: int, start: Cell, plan: seq<Cell>, i: nat)
    requires ShortMoves(moves) && Walk(moves, horizon, start, plan) && i <= |plan|
    ensures Manhattan(start, Position(start, plan, i)) <= i
  {
    if i > 0 {
      StepsSoFar(moves, horizon, start, plan, i - 1);
      assert StepAt(moves, start, plan, i - 1);
      ManhattanTriangle(start, Position(start, plan, i - 1), Position(start, plan, i));
    }
  }

  /** With recorded edges in the way, a lone AMR's plan has Manhattan length exactly if some walk that always comes
      nearer meets no reversed edge. */
  lemma ManhattanLengthIff(tab: Tables, amr: string, a: Cell, b: Cell, path: Option<seq<Cell>>)
    requires NoForeign(tab, amr) && BothInside(tab, a, b) && Best(tab, amr, a, b, path)
    ensures (path.Some? && |path.value| == Manhattan(a, b)) <==> exists plan :: Monotone(a, b, plan) && Unreserved(tab, a, plan)
  {
    if plan :| Monotone(a, b, plan) && Unreserved(tab, a, plan) {
      MonotoneIsFeasible(tab, amr, a, b, plan);
      if path.Some? {
        RemainingSteps(OpenMoves(tab, amr), tab.horizon, a, path.value, 0);
      }
    }
    if path.Some? && |path.value| == Manhattan(a, b) {
      DirectIsMonotone(tab, amr, a, b, path.value);
    }
  }
}
