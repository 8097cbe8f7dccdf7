/** The planner half of `AMRArtifact`: the shared reservation table and the cooperative A* over it. */
module AMRPlanner {
  import opened Wrappers
  import opened PackedKeys
  import opened SpaceTime
  import opened Search

  class ReservationTable {
    const reservedBy: array3<Option<string>>
    const gridCols: nat
    const gridRows: nat
    const horizonTicks: nat
    var edgeReservations: set<nat>

    ghost predicate Valid() {
      && reservedBy.Length0 == gridCols && reservedBy.Length1 == gridRows && reservedBy.Length2 == horizonTicks
      && horizonTicks == gridCols + gridRows + 4
    }

    ghost function Slots(): (r: set<Slot>)
      ensures forall s :: s in r <==> 0 <= s.x < gridCols && 0 <= s.y < gridRows && 0 <= s.t < horizonTicks
    {
      set x, y, t | 0 <= x < gridCols && 0 <= y < gridRows && 0 <= t < horizonTicks :: Slot(x, y, t)
    }

    ghost function OwnerMap(): map<Slot, string>
      requires Valid()
      reads reservedBy
    {
      map s | s in Slots() && reservedBy[s.x, s.y, s.t].Some? :: reservedBy[s.x, s.y, s.t].value
    }

    ghost function View(): Tables
      requires Valid()
      reads this`edgeReservations, reservedBy
    {
      Tables(gridCols, gridRows, horizonTicks, OwnerMap(), Keyed(edgeReservations))
    }

    /** `init`: an empty table. */
    constructor (cols: nat, rows: nat)
      ensures Valid() && fresh(reservedBy)
      ensures View() == Tables(cols, rows, cols + rows + 4, map[], iset{})
    {
      gridCols, gridRows, horizonTicks := cols, rows, cols + rows + 4;
      reservedBy := new Option<string>[cols, rows, cols + rows + 4]((x, y, t) => None);
      edgeReservations := {};
    }

    /** The three checks of the neighbour loop: bounds, occupied vertex, reversed edge. */
    predicate MayMove(amrId: string, cur: STNode, d: (int, int))
      requires Valid() && cur.x >= 0 && cur.y >= 0 && cur.t >= 0 && cur.t + 1 < horizonTicks
      reads this`edgeReservations, reservedBy
    {
      var nx, ny := cur.x + d.0, cur.y + d.1;
      if nx < 0 || nx >= gridCols || ny < 0 || ny >= gridRows then false
      else
        var occupant := reservedBy[nx, ny, cur.t + 1];
        if occupant.Some? && occupant.value != amrId then false
        else d == (0, 0) || EdgeKey(nx, ny, cur.x, cur.y, cur.t) !in edgeReservations
    }

    lemma MayMoveIsOpen(amrId: string, cur: STNode, k: nat)
      requires Valid() && cur.x >= 0 && cur.y >= 0 && cur.t >= 0 && cur.t + 1 < horizonTicks && k < |DIRS|
      ensures MayMove(amrId, cur, DIRS[k])
              <==> Move(cur.CellOf(), Neighbour(cur.State(), k), cur.t) in OpenMoves(View(), amrId)
    {
      var c := Neighbour(cur.State(), k);
      if Inside(gridCols, gridRows, c) {
        assert At(c, cur.t + 1) in Slots();
        var back := Move(c, cur.CellOf(), cur.t);
        assert Natural(back) && MoveKey(back) == EdgeKey(c.x, c.y, cur.x, cur.y, cur.t);
      }
    }

    /** Space-time A*. Sound for every grid; complete and shortest when the packed keys are unique. */
    method SpaceTimeAStar(amrId: string, start: Cell, goal: Cell) returns (path: Option<seq<Cell>>)
      requires Valid() && start.x >= 0 && start.y >= 0
      ensures path.Some? ==> Feasible(View(), amrId, start, goal, path.value)
      ensures FitsKeys(View(), start) ==> Best(View(), amrId, start, goal, path)
    {
      ghost var moves := OpenMoves(View(), amrId);
      forall cur: STNode, k: nat | cur.x >= 0 && cur.y >= 0 && cur.t >= 0 && cur.t + 1 < horizonTicks && k < |DIRS|
        ensures MayMove(amrId, cur, DIRS[k]) <==> Move(cur.CellOf(), Neighbour(cur.State(), k), cur.t) in moves
      {
        MayMoveIsOpen(amrId, cur, k);
      }
      path := SearchLoop(amrId, start, goal, moves, FitsKeys(View(), start));
    }

    predicate KeysFit() {
      horizonTicks <= TickRange(gridRows) && gridRows <= RowRange(gridRows)
    }

    /** `moves` are the moves that the three checks let through. */
    ghost predicate Allows(amrId: string, moves: iset<Move>)
      requires Valid()
      reads this`edgeReservations, reservedBy
    {
      forall cur: STNode, k: nat | cur.x >= 0 && cur.y >= 0 && cur.t >= 0 && cur.t + 1 < horizonTicks && k < |DIRS| ::
        MayMove(amrId, cur, DIRS[k]) <==> Move(cur.CellOf(), Neighbour(cur.State(), k), cur.t) in moves
    }

    /** The neighbour loop: pushes a node for every open move to a state whose key is not closed. */
    method Expand(amrId: string, ghost start: Cell, goal: Cell, cur: STNode, closed: set<nat>, open: multiset<STNode>,
                  ghost moves: iset<Move>, ghost fits: bool, ghost expanded: set<Slot>, ghost stateOf: map<nat, Slot>,
                  ghost nodeAt: map<Slot, STNode>)
      returns (open': multiset<STNode>, ghost nodeAt': map<Slot, STNode>)
      requires Valid() && Allows(amrId, moves) && cur.x >= 0 && cur.y >= 0 && cur.t + 1 < horizonTicks
      requires LandInside(moves, gridCols, gridRows) && (fits ==> KeysFit())
      requires Sound(moves, horizonTicks, start, goal, cur) && KeysOf(gridRows, fits, closed, expanded, stateOf)
      requires Growing(moves, horizonTicks, start, goal, fits, expanded, nodeAt, nodeAt, open, cur.State(), 0)
      ensures Growing(moves, horizonTicks, start, goal, fits, expanded, nodeAt, nodeAt', open', cur.State(), |DIRS|)
      ensures Allows(amrId, moves)
    {
      open', nodeAt' := open, nodeAt;
      for k := 0 to |DIRS|
        invariant Growing(moves, horizonTicks, start, goal, fits, expanded, nodeAt, nodeAt', open', cur.State(), k)
      {
        var push := MayMove(amrId, cur, DIRS[k]) && KeyOf(At(Neighbour(cur.State(), k), cur.t + 1)) !in closed;
        NeighbourStep(gridRows, moves, horizonTicks, start, goal, fits, closed, expanded, stateOf, nodeAt, nodeAt', open', cur, k, push);
        var node := Child(cur, goal, k);
        open' := if push then open' + multiset{node} else open';
        nodeAt' := if push then nodeAt'[node.State() := node] else nodeAt';
      }
    }

    /** The open/closed loop. */
    method SearchLoop(amrId: string, start: Cell, goal: Cell, ghost moves: iset<Move>, ghost fits: bool)
      returns (path: Option<seq<Cell>>)
      requires Valid() && start.x >= 0 && start.y >= 0 && Allows(amrId, moves)
      requires ShortMoves(moves) && LandInside(moves, gridCols, gridRows)
      requires fits ==> KeysFit() && start.y < RowRange(gridRows)
      ensures path.Some? ==> Reaches(moves, horizonTicks, start, goal, path.value)
      ensures path.Some? && fits ==> Shortest(moves, horizonTicks, start, goal, path.value)
      ensures path.None? && fits ==> Unreachable(moves, horizonTicks, start, goal)
    {
      ghost var horizon := horizonTicks;
      ghost var states := SearchStates(gridCols, gridRows, horizon, start);
      var root := STNode(start.x, start.y, 0, 0, Manhattan(start, goal), None);
      var open := multiset{root};
      var closed: set<nat> := {};
      ghost var expanded: set<Slot>, stateOf: map<nat, Slot> := {}, map[];
      ghost var nodeAt := map[root.State() := root];

      while |open| > 0
        invariant Allows(amrId, moves)
        invariant expanded <= states
        invariant SearchInv(moves, horizon, start, goal, fits, expanded, nodeAt, open)
        invariant KeysOf(gridRows, fits, closed, expanded, stateOf)
        decreases states - expanded, |open|
      {
        MinExists(open);
        var cur :| cur in open && forall m | m in open :: cur.CompareTo(m) <= 0;
        var rest := open - multiset{cur};
        SoundIsSearchState(moves, horizon, gridCols, gridRows, start, goal, cur);
        if cur.CellOf() == goal {
          GoalFound(moves, horizon, start, goal, fits, expanded, nodeAt, open, cur);
          var p := ReconstructPath(cur);
          return Some(p);
        }

        var key := KeyOf(cur.State());
        if key in closed {
          SkipStep(gridRows, moves, horizon, start, goal, fits, closed, expanded, stateOf, nodeAt, open, cur);
          open := rest;
          continue;
        }
        CloseStep(gridRows, moves, horizon, start, goal, fits, closed, expanded, stateOf, nodeAt, open, cur);
        ghost var expanded0, nodeAt0, open0 := expanded, nodeAt, open;
        open := rest;
        closed, expanded, stateOf := closed + {key}, expanded + {cur.State()}, stateOf[key := cur.State()];

        if cur.t + 1 < horizonTicks {
          open, nodeAt := Expand(amrId, start, goal, cur, closed, open, moves, fits, expanded, stateOf, nodeAt);
        }
        ExpandedJoins(moves, horizon, start, goal, fits, expanded0, nodeAt0, nodeAt, open0, open, cur.State());
      }
      if fits {
        EmptyMeansUnreachable(moves, horizon, start, goal, expanded, nodeAt, open);
      }
      return None;
    }

    // ----- writes

    method SetSlot(c: Cell, t: nat, amrId: string)
      requires Valid() && Inside(gridCols, gridRows, c) && t < horizonTicks
      modifies reservedBy
      ensures OwnerMap() == old(OwnerMap())[At(c, t) := amrId]
    {
      reservedBy[c.x, c.y, t] := Some(amrId);
    }

    /** The loop body of the commit: one vertex, and the edge into it if this is a move and not the first. */
    method CommitEntry(amrId: string, prevX: int, prevY: int, c: Cell, t: nat)
      requires Valid() && Inside(gridCols, gridRows, c) && t + 1 < horizonTicks && (prevX >= 0 ==> prevY >= 0)
      modifies this`edgeReservations, reservedBy
      ensures OwnerMap() == old(OwnerMap())[At(c, t + 1) := amrId]
      ensures edgeReservations == old(edgeReservations) + KeyInto(prevX, prevY, c, t)
    {
      SetSlot(c, t + 1, amrId);  // t + 1 because index 0 is "now"
      if prevX >= 0 && (prevX != c.x || prevY != c.y) {
        edgeReservations := edgeReservations + {EdgeKey(prevX, prevY, c.x, c.y, t)};
      }
    }

    /** Writes a plan into `reservedBy` (entry i of the list at index i + 1) and its edges into `edgeReservations`. */
    method CommitReservation(amrId: string, path: seq<Cell>)
      requires Valid() && |path| < horizonTicks
      requires forall i | 0 <= i < |path| :: Inside(gridCols, gridRows, path[i])
      modifies this`edgeReservations, reservedBy
      ensures CommitTo(old(View()), amrId, path, View())
    {
      ghost var owners0, edges0 := OwnerMap(), edgeReservations;
      var prevX, prevY := -1, -1;
      var t := 0;
      while t < |path| && t < horizonTicks
        invariant 0 <= t <= |path|
        invariant if t == 0 then prevX == prevY == -1 else prevX == path[t - 1].x && prevY == path[t - 1].y
        invariant Committed(owners0, amrId, path[..t], 0, OwnerMap())
        invariant edgeReservations == edges0 + PlanKeys(path[..t])
      {
        var c := path[t];
        ghost var owners := OwnerMap();
        PlanKeysStep(path, t, prevX, prevY);
        CommitEntry(amrId, prevX, prevY, c, t);
        CommittedStep(owners0, amrId, path, 0, t, owners, OwnerMap());
        prevX, prevY := c.x, c.y;
        t := t + 1;
      }
      assert path[..t] == path;
      KeyedUnion(edges0, PlanKeys(path));
    }

    /** Column (x, y) holds the entries of `was` that lie `ahead` ticks further. */
    ghost predicate ColumnIs(x: nat, y: nat, was: map<Slot, string>, ahead: nat)
      requires Valid() && x < gridCols && y < gridRows
      reads reservedBy
    {
      forall k | 0 <= k < horizonTicks :: reservedBy[x, y, k] == EntryOf(was, Slot(x, y, k + ahead))
    }

    /** The inner loop: one column moves one tick nearer, its last index becomes free. */
    method ShiftColumn(x: nat, y: nat, ghost was: map<Slot, string>)
      requires Valid() && x < gridCols && y < gridRows
      requires (forall s | s in was :: s in Slots()) && ColumnIs(x, y, was, 0)
      modifies reservedBy
      ensures ColumnIs(x, y, was, 1)
      ensures forall i: nat, j: nat, ahead | i < gridCols && j < gridRows && (i != x || j != y) && old(ColumnIs(i, j, was, ahead)) ::
        ColumnIs(i, j, was, ahead)
    {
      for t := 0 to horizonTicks - 1
        invariant forall k | 0 <= k < t :: reservedBy[x, y, k] == EntryOf(was, Slot(x, y, k + 1))
        invariant forall k | t <= k < horizonTicks :: reservedBy[x, y, k] == EntryOf(was, Slot(x, y, k + 0))
        invariant forall i, j, k | 0 <= i < gridCols && 0 <= j < gridRows && 0 <= k < horizonTicks && (i != x || j != y) ::
          reservedBy[i, j, k] == old(reservedBy[i, j, k])
      {
        reservedBy[x, y, t] := reservedBy[x, y, t + 1];
      }
      reservedBy[x, y, horizonTicks - 1] := None;
    }

    /** The order in which the loops visit the columns. */
    static predicate Before(i: nat, j: nat, x: nat, y: nat) {
      i < x || (i == x && j < y)
    }

    /** The triple loop of both clean-ups. */
    method ShiftColumns(ghost was: map<Slot, string>)
      requires Valid() && was == OwnerMap()
      modifies reservedBy
      ensures forall i: nat, j: nat | i < gridCols && j < gridRows :: ColumnIs(i, j, was, 1)
    {
      for x := 0 to gridCols
        invariant forall i: nat, j: nat | i < x && j < gridRows :: ColumnIs(i, j, was, 1)
        invariant forall i: nat, j: nat | x <= i < gridCols && j < gridRows :: ColumnIs(i, j, was, 0)
      {
        for y := 0 to gridRows
          invariant forall i: nat, j: nat | i < gridCols && j < gridRows && Before(i, j, x, y) :: ColumnIs(i, j, was, 1)
          invariant forall i: nat, j: nat | i < gridCols && j < gridRows && !Before(i, j, x, y) :: ColumnIs(i, j, was, 0)
        {
          ShiftColumn(x, y, was);
        }
      }
    }

    method ShiftVertices()
      requires Valid()
      modifies reservedBy
      ensures Shifted(old(OwnerMap()), OwnerMap())
    {
      ghost var was := OwnerMap();
      ShiftColumns(was);
      forall s: Slot
        ensures ShiftedAt(was, OwnerMap(), s)
      {
        ColumnShifts(was, s);
      }
    }

    lemma ColumnShifts(was: map<Slot, string>, s: Slot)
      requires Valid() && (forall s | s in was :: s in Slots())
      requires s in Slots() ==> ColumnIs(s.x, s.y, was, 1)
      ensures ShiftedAt(was, OwnerMap(), s)
    {
    }

    method ClearExpiredReservations()
      requires Valid()
      modifies this`edgeReservations, reservedBy
      ensures ClearTo(old(View()), View())
    {
      ShiftVertices();
      edgeReservations := {};
    }

    /** The per-tick refresh; `marks` are the fleet's ids and cells. The edges are left as they are. */
    method RefreshGridOccupancy(marks: seq<(string, Cell)>)
      requires Valid()
      modifies reservedBy
      ensures RefreshTo(old(View()), marks, View())
    {
      ghost var owners0 := OwnerMap();
      ShiftVertices();
      ShiftIsRefreshWithoutMarks(gridCols, gridRows, owners0, OwnerMap());
      for i := 0 to |marks|
        invariant Refreshed(gridCols, gridRows, owners0, marks[..i], OwnerMap())
      {
        ghost var mid := OwnerMap();
        var c := marks[i].1;
        if 0 <= c.x < gridCols && 0 <= c.y < gridRows {
          SetSlot(c, 0, marks[i].0);
        }
        RefreshedStep(gridCols, gridRows, owners0, marks, i, mid, OwnerMap());
      }
      assert marks[..|marks|] == marks;
    }
  }
}
