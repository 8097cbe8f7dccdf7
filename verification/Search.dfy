/** Nodes of the space-time A* search, the open list, and why the search is sound, complete and optimal. */
module Search {
  import opened Wrappers
  import opened PackedKeys
  import opened SpaceTime
  import MinFirst

  /** A search node; `g` equals the tick, `h` is the Manhattan distance to the goal. */
  datatype STNode = STNode(x: int, y: int, t: int, g: int, h: int, parent: Option<STNode>)
  {
    function F(): int {
      g + h
    }

    function CellOf(): Cell {
      Cell(x, y)
    }

    function State(): Slot {
      Slot(x, y, t)
    }

    /** Order by f, then by h. */
    function CompareTo(o: STNode): int {
      if F() != o.F() then F() - o.F() else h - o.h
    }
  }

  // Direction deltas: N, S, E, W, Wait
  const DIRS: seq<(int, int)> := [(0, -1), (0, 1), (1, 0), (-1, 0), (0, 0)]

  // ----- the open list: a priority queue, seen as a multiset from which any minimal element is polled

  predicate NotAfter(a: STNode, b: STNode) {
    a.CompareTo(b) <= 0
  }

  lemma MinExists(open: multiset<STNode>)
    requires |open| > 0
    ensures exists n :: MinFirst.IsMin(n, open, NotAfter)
  {
    MinFirst.MinExists(open, NotAfter);
  }

  // ----- nodes made by the search

  /** A node whose parent chain is a walk from the start. */
  ghost predicate Sound(moves: iset<Move>, horizon: int, start: Cell, goal: Cell, n: STNode) {
    && n.t == n.g >= 0
    && n.t < horizon
    && n.h == Manhattan(n.CellOf(), goal)
    && match n.parent
       case None => n.CellOf() == start && n.t == 0
       case Some(p) => n.t == p.t + 1 && Sound(moves, horizon, start, goal, p)
                       && Move(p.CellOf(), n.CellOf(), p.t) in moves
  }

  function PathTo(n: STNode): seq<Cell> {
    match n.parent
    case None => []
    case Some(p) => PathTo(p) + [n.CellOf()]
  }

  /** The parent chain of a sound node, reversed, walks from the start to the node, one entry per tick. */
  lemma {:induction false} PathToWalks(moves: iset<Move>, horizon: int, start: Cell, goal: Cell, n: STNode)
    requires Sound(moves, horizon, start, goal, n)
    ensures Walk(moves, horizon, start, PathTo(n))
    ensures |PathTo(n)| == n.t
    ensures Position(start, PathTo(n), n.t) == n.CellOf()
    decreases n
  {
    match n.parent
    case None =>
    case Some(p) =>
      PathToWalks(moves, horizon, start, goal, p);
      var plan := PathTo(n);
      forall i: nat | i < |plan|
        ensures StepAt(moves, start, plan, i)
      {
        assert Position(start, plan, i) == Position(start, PathTo(p), i);
        if i < p.t {
          assert StepAt(moves, start, PathTo(p), i);
          assert Position(start, plan, i + 1) == Position(start, PathTo(p), i + 1);
        }
      }
  }

  method ReconstructPath(goal: STNode) returns (path: seq<Cell>)
    ensures path == PathTo(goal)
  {
    path := [];
    var cur := goal;
    while cur.parent.Some?
      invariant PathTo(cur) + path == PathTo(goal)
      decreases cur
    {
      path := [cur.CellOf()] + path;
      cur := cur.parent.value;
    }
  }

  // ----- the frontier

  /** What the open list must hold: the start and every state met so far is expanded or has a node in the open
      list (`nodeAt` names it), and no expanded state is at the goal. */
  ghost predicate Tracked(start: Cell, goal: Cell, expanded: set<Slot>, nodeAt: map<Slot, STNode>,
                          open: multiset<STNode>)
  {
    && At(start, 0) in nodeAt
    && expanded <= nodeAt.Keys
    && (forall n | n in open :: n.State() in nodeAt)
    && (forall s | s in expanded :: Cell(s.x, s.y) != goal)
    && (forall s | s in nodeAt && s !in expanded :: nodeAt[s] in open && nodeAt[s].State() == s)
  }

  /** Every step out of `s` inside the horizon leads to a tracked state. */
  ghost predicate Closed(moves: iset<Move>, horizon: int, s: Slot, nodeAt: map<Slot, STNode>) {
    forall c | s.t >= 0 && s.t + 1 < horizon && Move(Cell(s.x, s.y), c, s.t) in moves
      :: At(c, s.t + 1) in nodeAt
  }

  ghost predicate Frontier(moves: iset<Move>, horizon: int, start: Cell, goal: Cell,
                           expanded: set<Slot>, nodeAt: map<Slot, STNode>, open: multiset<STNode>)
  {
    && Tracked(start, goal, expanded, nodeAt, open)
    && forall s | s in expanded :: Closed(moves, horizon, s, nodeAt)
  }

  function Neighbour(s: Slot, k: nat): Cell
    requires k < |DIRS|
  {
    Cell(s.x + DIRS[k].0, s.y + DIRS[k].1)
  }

  /** The first k moves out of `s` are tracked. */
  ghost predicate ClosedUpTo(moves: iset<Move>, horizon: int, s: Slot, nodeAt: map<Slot, STNode>, k: nat) {
    forall j: nat | j < k && j < |DIRS| && s.t >= 0 && Move(Cell(s.x, s.y), Neighbour(s, j), s.t) in moves
      :: At(Neighbour(s, j), s.t + 1) in nodeAt
  }

  lemma PollKeepsTracked(start: Cell, goal: Cell, expanded: set<Slot>, nodeAt: map<Slot, STNode>,
                         open: multiset<STNode>, cur: STNode)
    requires Tracked(start, goal, expanded, nodeAt, open) && cur in open && cur.CellOf() != goal
    ensures Tracked(start, goal, expanded + {cur.State()}, nodeAt, open - multiset{cur})
  {
  }

  /** The five directions are all moves there are. */
  lemma AllMovesTried(moves: iset<Move>, horizon: int, s: Slot, nodeAt: map<Slot, STNode>)
    requires ShortMoves(moves) && ClosedUpTo(moves, horizon, s, nodeAt, |DIRS|)
    ensures Closed(moves, horizon, s, nodeAt)
  {
    forall c | s.t >= 0 && s.t + 1 < horizon && Move(Cell(s.x, s.y), c, s.t) in moves
      ensures At(c, s.t + 1) in nodeAt
    {
      var k := if c.y < s.y then 0 else if c.y > s.y then 1 else if c.x > s.x then 2 else if c.x < s.x then 3 else 4;
      assert c == Neighbour(s, k);
    }
  }

  /** Following a feasible plan out of an expanded state stays on tracked states. */
  lemma PlanStaysTracked(moves: iset<Move>, horizon: int, start: Cell, goal: Cell, expanded: set<Slot>,
                         nodeAt: map<Slot, STNode>, open: multiset<STNode>, plan: seq<Cell>, i: nat)
    requires Frontier(moves, horizon, start, goal, expanded, nodeAt, open)
    requires Reaches(moves, horizon, start, goal, plan) && i <= |plan|
    requires At(Position(start, plan, i), i) in expanded
    ensures i < |plan| && At(Position(start, plan, i + 1), i + 1) in nodeAt
  {
    var s := At(Position(start, plan, i), i);
    assert Cell(s.x, s.y) == Position(start, plan, i);
    assert Closed(moves, horizon, s, nodeAt);
    if i < |plan| {
      assert StepAt(moves, start, plan, i);
    }
  }

  /** While a feasible plan exists, the open list holds a node on it whose f is at most the plan's length. */
  lemma FrontierMeetsPlan(moves: iset<Move>, horizon: int, start: Cell, goal: Cell, expanded: set<Slot>,
                          nodeAt: map<Slot, STNode>, open: multiset<STNode>, plan: seq<Cell>, i: nat)
    returns (n: STNode)
    requires ShortMoves(moves)
    requires Frontier(moves, horizon, start, goal, expanded, nodeAt, open)
    requires forall m | m in open :: Sound(moves, horizon, start, goal, m)
    requires Reaches(moves, horizon, start, goal, plan) && i <= |plan| && At(Position(start, plan, i), i) in nodeAt
    ensures n in open && n.F() <= |plan|
    decreases |plan| - i
  {
    var s := At(Position(start, plan, i), i);
    if s in expanded {
      PlanStaysTracked(moves, horizon, start, goal, expanded, nodeAt, open, plan, i);
      n := FrontierMeetsPlan(moves, horizon, start, goal, expanded, nodeAt, open, plan, i + 1);
    } else {
      n := nodeAt[s];
      assert Sound(moves, horizon, start, goal, n);
      assert n.CellOf() == Position(start, plan, i);
      RemainingSteps(moves, horizon, start, plan, i);
    }
  }

  /** A polled goal node gives a plan no longer than any other. */
  lemma GoalPolledFirst(moves: iset<Move>, horizon: int, start: Cell, goal: Cell, expanded: set<Slot>,
                        nodeAt: map<Slot, STNode>, open: multiset<STNode>, cur: STNode)
    requires ShortMoves(moves)
    requires Frontier(moves, horizon, start, goal, expanded, nodeAt, open)
    requires forall m | m in open :: Sound(moves, horizon, start, goal, m)
    requires MinFirst.IsMin(cur, open, NotAfter) && cur.CellOf() == goal
    ensures forall plan | Reaches(moves, horizon, start, goal, plan) :: cur.t <= |plan|
  {
    forall plan | Reaches(moves, horizon, start, goal, plan)
      ensures cur.t <= |plan|
    {
      var n := FrontierMeetsPlan(moves, horizon, start, goal, expanded, nodeAt, open, plan, 0);
      assert cur.CompareTo(n) <= 0;
      assert Sound(moves, horizon, start, goal, cur);
    }
  }

  lemma EmptyMeansUnreachable(moves: iset<Move>, horizon: int, start: Cell, goal: Cell, expanded: set<Slot>,
                              nodeAt: map<Slot, STNode>, open: multiset<STNode>)
    requires ShortMoves(moves)
    requires Frontier(moves, horizon, start, goal, expanded, nodeAt, open) && |open| == 0
    ensures Unreachable(moves, horizon, start, goal)
  {
    forall plan
      ensures !Reaches(moves, horizon, start, goal, plan)
    {
      if Reaches(moves, horizon, start, goal, plan) {
        var n := FrontierMeetsPlan(moves, horizon, start, goal, expanded, nodeAt, open, plan, 0);
        assert false;
      }
    }
  }

  /** States whose keys are unique in a grid of so many rows: see PackedKeys.KeysUniqueIn. */
  predicate Keyable(rows: nat, s: Slot) {
    s.x >= 0 && 0 <= s.y < RowRange(rows) && 0 <= s.t < TickRange(rows)
  }

  predicate Natural3(s: Slot) {
    s.x >= 0 && s.y >= 0 && s.t >= 0
  }

  function KeyOf(s: Slot): nat
    requires Natural3(s)
  {
    StateKey(s.x, s.y, s.t)
  }

  /** `closed` is the set of the keys of the expanded states; `stateOf` names one state for each key. */
  ghost predicate KeysOf(rows: nat, fits: bool, closed: set<nat>, expanded: set<Slot>, stateOf: map<nat, Slot>) {
    && closed == stateOf.Keys
    && (forall k | k in stateOf :: Natural3(stateOf[k]) && KeyOf(stateOf[k]) == k && stateOf[k] in expanded)
    && (forall s | s in expanded :: Natural3(s) && KeyOf(s) in closed && (fits ==> Keyable(rows, s)))
  }

  /** With unique keys, a closed key means the state itself was expanded. */
  lemma ClosedMeansExpanded(rows: nat, closed: set<nat>, expanded: set<Slot>, stateOf: map<nat, Slot>, s: Slot)
    requires KeysOf(rows, true, closed, expanded, stateOf) && Keyable(rows, s) && KeyOf(s) in closed
    ensures s in expanded
  {
    var z := stateOf[KeyOf(s)];
    KeysUniqueIn(rows, s.x, s.y, s.t, z.x, z.y, z.t);
  }

  lemma CloseKeepsKeys(rows: nat, fits: bool, closed: set<nat>, expanded: set<Slot>, stateOf: map<nat, Slot>, s: Slot)
    requires KeysOf(rows, fits, closed, expanded, stateOf) && Natural3(s) && (fits ==> Keyable(rows, s))
    requires KeyOf(s) !in closed
    ensures KeysOf(rows, fits, closed + {KeyOf(s)}, expanded + {s}, stateOf[KeyOf(s) := s])
    ensures s !in expanded
  {
  }

  /** Moves end inside the grid. */
  ghost predicate LandInside(moves: iset<Move>, cols: nat, rows: nat) {
    forall m | m in moves :: 0 <= m.to.x < cols && 0 <= m.to.y < rows
  }

  /** All states the search can meet: those of the grid, and the start, which may lie outside it. */
  ghost function SearchStates(cols: nat, rows: nat, horizon: int, start: Cell): (r: set<Slot>)
    ensures forall s :: s in r <==> s == At(start, 0) || (0 <= s.x < cols && 0 <= s.y < rows && 0 <= s.t < horizon)
  {
    (set x, y, t | 0 <= x < cols && 0 <= y < rows && 0 <= t < horizon :: Slot(x, y, t)) + {At(start, 0)}
  }

  lemma SoundIsSearchState(moves: iset<Move>, horizon: int, cols: nat, rows: nat, start: Cell, goal: Cell, n: STNode)
    requires LandInside(moves, cols, rows) && Sound(moves, horizon, start, goal, n)
    ensures n.State() in SearchStates(cols, rows, horizon, start)
    ensures 0 <= n.t < horizon
  {
  }

  // ----- the search invariant; everything beyond soundness needs unique keys

  ghost predicate SearchInv(moves: iset<Move>, horizon: int, start: Cell, goal: Cell, fits: bool,
                            expanded: set<Slot>, nodeAt: map<Slot, STNode>, open: multiset<STNode>)
  {
    && (forall n | n in open :: Sound(moves, horizon, start, goal, n))
    && (fits ==> Frontier(moves, horizon, start, goal, expanded, nodeAt, open))
  }

  lemma SkipKeepsInv(moves: iset<Move>, horizon: int, start: Cell, goal: Cell, fits: bool,
                     expanded: set<Slot>, nodeAt: map<Slot, STNode>, open: multiset<STNode>, cur: STNode)
    requires SearchInv(moves, horizon, start, goal, fits, expanded, nodeAt, open)
    requires cur in open && cur.CellOf() != goal
    requires fits ==> cur.State() in expanded
    ensures SearchInv(moves, horizon, start, goal, fits, expanded, nodeAt, open - multiset{cur})
  {
    if fits {
      PollKeepsTracked(start, goal, expanded, nodeAt, open, cur);
      assert expanded + {cur.State()} == expanded;
    }
  }

  /** In the middle of the neighbour loop: `cs` is expanded and its first k moves are tracked. */
  ghost predicate Growing(moves: iset<Move>, horizon: int, start: Cell, goal: Cell, fits: bool,
                          expanded: set<Slot>, nodeAt0: map<Slot, STNode>, nodeAt: map<Slot, STNode>,
                          open: multiset<STNode>, cs: Slot, k: nat)
  {
    && (forall n | n in open :: Sound(moves, horizon, start, goal, n))
    && nodeAt0.Keys <= nodeAt.Keys
    && (fits ==> Tracked(start, goal, expanded, nodeAt, open) && ClosedUpTo(moves, horizon, cs, nodeAt, k))
  }

  lemma PollKeepsInv(moves: iset<Move>, horizon: int, start: Cell, goal: Cell, fits: bool,
                     expanded: set<Slot>, nodeAt: map<Slot, STNode>, open: multiset<STNode>, cur: STNode)
    requires SearchInv(moves, horizon, start, goal, fits, expanded, nodeAt, open)
    requires cur in open && cur.CellOf() != goal
    ensures Growing(moves, horizon, start, goal, fits, expanded + {cur.State()}, nodeAt, nodeAt, open - multiset{cur}, cur.State(), 0)
  {
    if fits {
      PollKeepsTracked(start, goal, expanded, nodeAt, open, cur);
    }
  }

  /** The node of an open move. */
  function Child(cur: STNode, goal: Cell, k: nat): STNode
    requires k < |DIRS|
  {
    var c := Neighbour(cur.State(), k);
    STNode(c.x, c.y, cur.t + 1, cur.t + 1, Manhattan(c, goal), Some(cur))
  }

  lemma ChildIsSound(moves: iset<Move>, horizon: int, start: Cell, goal: Cell, cur: STNode, k: nat)
    requires Sound(moves, horizon, start, goal, cur) && cur.t + 1 < horizon && k < |DIRS|
    requires Move(cur.CellOf(), Neighbour(cur.State(), k), cur.t) in moves
    ensures Sound(moves, horizon, start, goal, Child(cur, goal, k))
  {
    assert Child(cur, goal, k).CellOf() == Neighbour(cur.State(), k);
  }

  lemma PushKeepsGrowing(moves: iset<Move>, horizon: int, start: Cell, goal: Cell, fits: bool,
                         expanded: set<Slot>, nodeAt0: map<Slot, STNode>, nodeAt: map<Slot, STNode>,
                         open: multiset<STNode>, cur: STNode, k: nat, node: STNode)
    requires Growing(moves, horizon, start, goal, fits, expanded, nodeAt0, nodeAt, open, cur.State(), k) && k < |DIRS|
    requires Sound(moves, horizon, start, goal, cur) && cur.t + 1 < horizon
    requires Move(cur.CellOf(), Neighbour(cur.State(), k), cur.t) in moves && node == Child(cur, goal, k)
    ensures Growing(moves, horizon, start, goal, fits, expanded, nodeAt0, nodeAt[node.State() := node],
                    open + multiset{node}, cur.State(), k + 1)
  {
    ChildIsSound(moves, horizon, start, goal, cur, k);
    assert node.State() == At(Neighbour(cur.State(), k), cur.t + 1);
    if fits {
      PushKeepsTracked(start, goal, expanded, nodeAt, open, node);
      PushKeepsClosed(moves, horizon, cur.State(), nodeAt, k, node);
    }
  }

  lemma PushKeepsClosed(moves: iset<Move>, horizon: int, s: Slot, nodeAt: map<Slot, STNode>, k: nat, node: STNode)
    requires ClosedUpTo(moves, horizon, s, nodeAt, k) && k < |DIRS| && node.State() == At(Neighbour(s, k), s.t + 1)
    ensures ClosedUpTo(moves, horizon, s, nodeAt[node.State() := node], k + 1)
  {
  }

  lemma PushKeepsTracked(start: Cell, goal: Cell, expanded: set<Slot>, nodeAt: map<Slot, STNode>,
                         open: multiset<STNode>, node: STNode)
    requires Tracked(start, goal, expanded, nodeAt, open)
    ensures Tracked(start, goal, expanded, nodeAt[node.State() := node], open + multiset{node})
  {
  }

  /** A move may be skipped if it is not possible or its target is expanded already. */
  lemma SkipKeepsGrowing(moves: iset<Move>, horizon: int, start: Cell, goal: Cell, fits: bool,
                         expanded: set<Slot>, nodeAt0: map<Slot, STNode>, nodeAt: map<Slot, STNode>,
                         open: multiset<STNode>, cur: STNode, k: nat)
    requires Growing(moves, horizon, start, goal, fits, expanded, nodeAt0, nodeAt, open, cur.State(), k) && k < |DIRS|
    requires fits && Move(cur.CellOf(), Neighbour(cur.State(), k), cur.t) in moves
             ==> At(Neighbour(cur.State(), k), cur.t + 1) in expanded
    ensures Growing(moves, horizon, start, goal, fits, expanded, nodeAt0, nodeAt, open, cur.State(), k + 1)
  {
  }

  lemma ExpandedJoins(moves: iset<Move>, horizon: int, start: Cell, goal: Cell, fits: bool,
                      expanded: set<Slot>, nodeAt0: map<Slot, STNode>, nodeAt: map<Slot, STNode>,
                      open0: multiset<STNode>, open: multiset<STNode>, cs: Slot)
    requires ShortMoves(moves)
    requires SearchInv(moves, horizon, start, goal, fits, expanded, nodeAt0, open0)
    requires Growing(moves, horizon, start, goal, fits, expanded + {cs}, nodeAt0, nodeAt, open, cs,
                     if cs.t + 1 < horizon then |DIRS| else 0)
    ensures SearchInv(moves, horizon, start, goal, fits, expanded + {cs}, nodeAt, open)
  {
    if fits {
      if cs.t + 1 < horizon {
        AllMovesTried(moves, horizon, cs, nodeAt);
      }
      forall s | s in expanded
        ensures Closed(moves, horizon, s, nodeAt)
      {
        assert Closed(moves, horizon, s, nodeAt0);
      }
    }
  }

  // ----- one lemma per path through the search loop

  lemma GoalFound(moves: iset<Move>, horizon: int, start: Cell, goal: Cell, fits: bool, expanded: set<Slot>,
                  nodeAt: map<Slot, STNode>, open: multiset<STNode>, cur: STNode)
    requires ShortMoves(moves) && SearchInv(moves, horizon, start, goal, fits, expanded, nodeAt, open)
    requires MinFirst.IsMin(cur, open, NotAfter) && cur.CellOf() == goal
    ensures Reaches(moves, horizon, start, goal, PathTo(cur))
    ensures fits ==> Shortest(moves, horizon, start, goal, PathTo(cur))
  {
    PathToWalks(moves, horizon, start, goal, cur);
    if fits {
      GoalPolledFirst(moves, horizon, start, goal, expanded, nodeAt, open, cur);
    }
  }

  lemma SkipStep(rows: nat, moves: iset<Move>, horizon: int, start: Cell, goal: Cell, fits: bool, closed: set<nat>, expanded: set<Slot>,
                 stateOf: map<nat, Slot>, nodeAt: map<Slot, STNode>, open: multiset<STNode>, cur: STNode)
    requires SearchInv(moves, horizon, start, goal, fits, expanded, nodeAt, open)
    requires KeysOf(rows, fits, closed, expanded, stateOf)
    requires cur in open && cur.CellOf() != goal && Natural3(cur.State()) && KeyOf(cur.State()) in closed
    requires fits ==> Keyable(rows, cur.State())
    ensures SearchInv(moves, horizon, start, goal, fits, expanded, nodeAt, open - multiset{cur})
  {
    if fits {
      ClosedMeansExpanded(rows, closed, expanded, stateOf, cur.State());
    }
    SkipKeepsInv(moves, horizon, start, goal, fits, expanded, nodeAt, open, cur);
  }

  lemma CloseStep(rows: nat, moves: iset<Move>, horizon: int, start: Cell, goal: Cell, fits: bool, closed: set<nat>, expanded: set<Slot>,
                  stateOf: map<nat, Slot>, nodeAt: map<Slot, STNode>, open: multiset<STNode>, cur: STNode)
    requires SearchInv(moves, horizon, start, goal, fits, expanded, nodeAt, open)
    requires KeysOf(rows, fits, closed, expanded, stateOf)
    requires cur in open && cur.CellOf() != goal && Natural3(cur.State()) && KeyOf(cur.State()) !in closed
    requires fits ==> Keyable(rows, cur.State())
    ensures KeysOf(rows, fits, closed + {KeyOf(cur.State())}, expanded + {cur.State()}, stateOf[KeyOf(cur.State()) := cur.State()])
    ensures cur.State() !in expanded
    ensures Growing(moves, horizon, start, goal, fits, expanded + {cur.State()}, nodeAt, nodeAt, open - multiset{cur}, cur.State(), 0)
  {
    CloseKeepsKeys(rows, fits, closed, expanded, stateOf, cur.State());
    PollKeepsInv(moves, horizon, start, goal, fits, expanded, nodeAt, open, cur);
  }

  /** A neighbour is pushed if its move is open and its key is not closed. */
  lemma NeighbourStep(rows: nat, moves: iset<Move>, horizon: int, start: Cell, goal: Cell, fits: bool, closed: set<nat>,
                      expanded: set<Slot>, stateOf: map<nat, Slot>, nodeAt0: map<Slot, STNode>, nodeAt: map<Slot, STNode>,
                      open: multiset<STNode>, cur: STNode, k: nat, push: bool)
    requires k < |DIRS|
    requires Growing(moves, horizon, start, goal, fits, expanded, nodeAt0, nodeAt, open, cur.State(), k)
    requires KeysOf(rows, fits, closed, expanded, stateOf)
    requires Sound(moves, horizon, start, goal, cur) && cur.t + 1 < horizon
    requires Move(cur.CellOf(), Neighbour(cur.State(), k), cur.t) in moves && fits ==> Keyable(rows, At(Neighbour(cur.State(), k), cur.t + 1))
    requires push ==> Move(cur.CellOf(), Neighbour(cur.State(), k), cur.t) in moves
    requires !push && Move(cur.CellOf(), Neighbour(cur.State(), k), cur.t) in moves
      ==> var s := At(Neighbour(cur.State(), k), cur.t + 1); Natural3(s) && KeyOf(s) in closed
    ensures var node := Child(cur, goal, k);
      Growing(moves, horizon, start, goal, fits, expanded, nodeAt0, if push then nodeAt[node.State() := node] else nodeAt,
              if push then open + multiset{node} else open, cur.State(), k + 1)
  {
    if push {
      PushKeepsGrowing(moves, horizon, start, goal, fits, expanded, nodeAt0, nodeAt, open, cur, k, Child(cur, goal, k));
    } else {
      if fits && Move(cur.CellOf(), Neighbour(cur.State(), k), cur.t) in moves {
        ClosedMeansExpanded(rows, closed, expanded, stateOf, At(Neighbour(cur.State(), k), cur.t + 1));
      }
      SkipKeepsGrowing(moves, horizon, start, goal, fits, expanded, nodeAt0, nodeAt, open, cur, k);
    }
  }
}
