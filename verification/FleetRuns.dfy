/** Runs of the whole fleet: dispatch to the least loaded AMR, and the conservation of orders. */
module FleetRuns {
  import opened Wrappers
  import opened SpaceTime
  import opened FleetJobs
  import opened Decimals

  /** The AMRs, and a ledger of all order ids accepted, reported as arrived, and dropped by a cancel so far. */
  datatype Fleet = Fleet(amrs: seq<Amr>, accepted: multiset<string>, arrived: multiset<string>, cancelled: multiset<string>)

  datatype Event =
    | Request(amr: string, job: Job)
    | Reserve(job: Job, best: nat)
    | CancelOrder(amr: string, order: string)
    | Breakdown(amr: string, seconds: real)
    | Trajectory(amr: string, path: seq<Cell>)  // a granted reserveTrajectory
    | Step(index: nat, dt: real, failure: Option<real>, plan: Option<seq<Cell>>)

  /** An operation that addresses an AMR by its id. */
  datatype Op = Accepting(job: Job) | Cancelling(order: string) | Breaking(seconds: real) | Directing(path: seq<Cell>)

  function Perform(a: Amr, op: Op): Amr {
    match op
    case Accepting(job) => Accept(a, job)
    case Cancelling(order) => Cancel(a, order)
    case Breaking(seconds) => BreakDown(a, seconds)
    case Directing(path) => a.(path := path, pathIndex := 0)
  }

  /** Its loop over the fleet. */
  function Update(amrs: seq<Amr>, id: string, op: Op): seq<Amr> {
    seq(|amrs|, i requires 0 <= i < |amrs| => if amrs[i].id == id then Perform(amrs[i], op) else amrs[i])
  }

  predicate DistinctIds(amrs: seq<Amr>) {
    forall i, j | 0 <= i < j < |amrs| :: amrs[i].id != amrs[j].id
  }

  predicate Serves(amrs: seq<Amr>, id: string) {
    exists i | 0 <= i < |amrs| :: amrs[i].id == id
  }

  /** The first AMR of least load. */
  predicate LeastLoaded(amrs: seq<Amr>, b: nat) {
    && b < |amrs|
    && (forall j | 0 <= j < |amrs| :: Load(amrs[b]) <= Load(amrs[j]))
    && (forall j | 0 <= j < b :: Load(amrs[b]) < Load(amrs[j]))
  }

  function Copies(amrs: seq<Amr>, id: string, order: string): nat {
    if amrs == [] then 0
    else (if amrs[0].id == id then OrdersOf(amrs[0])[order] else 0) + Copies(amrs[1..], id, order)
  }

  /** Events the cognitive layer may cause: order ids are never empty. */
  predicate Possible(f: Fleet, e: Event) {
    match e
    case Request(_, job) => OrderOf(job) != ""
    case Reserve(job, best) => OrderOf(job) != "" && (f.amrs != [] ==> LeastLoaded(f.amrs, best))
    case CancelOrder(_, order) => order != ""
    case Breakdown(_, _) | Trajectory(_, _) => true
    case Step(index, _, _, _) => index < |f.amrs|
  }

  function Apply(f: Fleet, e: Event, stationOf: string -> Option<Cell>): Fleet
    requires Possible(f, e)
  {
    match e
    case Request(id, job) =>
      f.(amrs := Update(f.amrs, id, Accepting(job)),
         accepted := f.accepted + if Serves(f.amrs, id) then multiset{OrderOf(job)} else multiset{})
    case Reserve(job, best) =>
      if f.amrs == [] then f
      else f.(amrs := f.amrs[best := Accept(f.amrs[best], job)], accepted := f.accepted + multiset{OrderOf(job)})
    case CancelOrder(id, order) =>
      f.(amrs := Update(f.amrs, id, Cancelling(order)),
         cancelled := f.cancelled + multiset{}[order := Copies(f.amrs, id, order)])
    case Breakdown(id, seconds) =>
      f.(amrs := Update(f.amrs, id, Breaking(seconds)))
    case Trajectory(id, path) =>
      f.(amrs := Update(f.amrs, id, Directing(path)))
    case Step(i, dt, failure, plan) =>
      var (b, signals) := StepAmr(f.amrs[i], dt, failure, stationOf, plan);
      f.(amrs := f.amrs[i := b], arrived := f.arrived + ArrivedIn(signals))
  }

  predicate IsRun(f: Fleet, es: seq<Event>, stationOf: string -> Option<Cell>)
    decreases |es|
  {
    es == [] || (Possible(f, es[0]) && IsRun(Apply(f, es[0], stationOf), es[1..], stationOf))
  }

  function After(f: Fleet, es: seq<Event>, stationOf: string -> Option<Cell>): Fleet
    requires IsRun(f, es, stationOf)
    decreases |es|
  {
    if es == [] then f else After(Apply(f, es[0], stationOf), es[1..], stationOf)
  }

  // ----- dispatch

  /** Reserving raises exactly the chosen, least loaded AMR's load, by one; and while any AMR is free with an
      empty queue, the job is started at once and not queued. */
  lemma ReserveIsBalanced(amrs: seq<Amr>, job: Job, b: nat)
    requires LeastLoaded(amrs, b) && OrderOf(job) != ""
    ensures var after := amrs[b := Accept(amrs[b], job)];
      && Load(after[b]) == Load(amrs[b]) + 1
      && (forall j | 0 <= j < |amrs| && j != b :: Load(after[j]) == Load(amrs[j]))
      && ((exists j | 0 <= j < |amrs| :: IsFree(amrs[j]) && amrs[j].queue == [])
          ==> after[b].queue == amrs[b].queue == [] && after[b].pending == OrderOf(job))
  {
  }

  // ----- conservation

  /** How many AMRs hold an order, queued or in progress. */
  function Held(amrs: seq<Amr>, order: string): nat {
    Total(amrs, a => OrdersOf(a)[order])
  }

  function Total(amrs: seq<Amr>, count: Amr -> nat): nat {
    if amrs == [] then 0 else count(amrs[0]) + Total(amrs[1..], count)
  }

  predicate AllConsistent(amrs: seq<Amr>) {
    forall i | 0 <= i < |amrs| :: Consistent(amrs[i])
  }

  /** Every accepted order is queued, in progress, arrived or cancelled. */
  ghost predicate Balanced(f: Fleet) {
    && DistinctIds(f.amrs) && AllConsistent(f.amrs)
    && forall order :: BalancedIn(f, order)
  }

  predicate BalancedIn(f: Fleet, order: string) {
    f.accepted[order] == Held(f.amrs, order) + f.arrived[order] + f.cancelled[order]
  }

  lemma HeldUpdate(amrs: seq<Amr>, i: nat, b: Amr, order: string)
    requires i < |amrs|
    ensures Held(amrs[i := b], order) + OrdersOf(amrs[i])[order] == Held(amrs, order) + OrdersOf(b)[order]
  {
    TotalUpdate(amrs, i, b, a => OrdersOf(a)[order]);
  }

  lemma {:induction false} TotalUpdate(amrs: seq<Amr>, i: nat, b: Amr, count: Amr -> nat)
    requires i < |amrs|
    ensures Total(amrs[i := b], count) + count(amrs[i]) == Total(amrs, count) + count(b)
  {
    if i == 0 {
      assert amrs[0 := b][1..] == amrs[1..];
    } else {
      assert amrs[i := b][1..] == amrs[1..][i - 1 := b];
      TotalUpdate(amrs[1..], i - 1, b, count);
    }
  }

  /** With distinct ids an operation by id changes at most one AMR. */
  lemma UpdateOne(amrs: seq<Amr>, id: string, op: Op, k: nat)
    requires DistinctIds(amrs) && k < |amrs| && amrs[k].id == id
    ensures Update(amrs, id, op) == amrs[k := Perform(amrs[k], op)]
  {
  }

  lemma UpdateNone(amrs: seq<Amr>, id: string, op: Op)
    requires !Serves(amrs, id)
    ensures Update(amrs, id, op) == amrs
  {
  }

  lemma {:induction false} CopiesOf(amrs: seq<Amr>, id: string, order: string, k: nat)
    requires DistinctIds(amrs)
    ensures k < |amrs| && amrs[k].id == id ==> Copies(amrs, id, order) == OrdersOf(amrs[k])[order]
    ensures !Serves(amrs, id) ==> Copies(amrs, id, order) == 0
  {
    if amrs != [] {
      var rest := amrs[1..];
      assert forall i | 0 <= i < |rest| :: rest[i] == amrs[i + 1];
      CopiesOf(rest, id, order, if k > 0 then k - 1 else 0);
    }
  }

  /** One AMR changes; what it gains and gives away is booked in the ledger. */
  lemma ChangeOne(f: Fleet, g: Fleet, k: nat, b: Amr, accepted: multiset<string>, arrived: multiset<string>, cancelled: multiset<string>)
    requires Balanced(f) && k < |f.amrs| && Consistent(b) && b.id == f.amrs[k].id
    requires OrdersOf(b) + arrived + cancelled == OrdersOf(f.amrs[k]) + accepted
    requires g.amrs == f.amrs[k := b] && g.accepted == f.accepted + accepted
    requires g.arrived == f.arrived + arrived && g.cancelled == f.cancelled + cancelled
    ensures Balanced(g)
  {
    forall order
      ensures BalancedIn(g, order)
    {
      assert BalancedIn(f, order);
      HeldUpdate(f.amrs, k, b, order);
      assert (OrdersOf(b) + arrived + cancelled)[order] == (OrdersOf(f.amrs[k]) + accepted)[order];
    }
  }

  lemma NothingChanges(f: Fleet, g: Fleet)
    requires Balanced(f) && g.amrs == f.amrs
    requires g.accepted == f.accepted && g.arrived == f.arrived && g.cancelled == f.cancelled
    ensures Balanced(g)
  {
    assert f == g;
  }

  lemma RequestBalanced(f: Fleet, id: string, job: Job, stationOf: string -> Option<Cell>)
    requires Balanced(f) && OrderOf(job) != ""
    ensures Balanced(Apply(f, Request(id, job), stationOf))
  {
    if k: nat :| k < |f.amrs| && f.amrs[k].id == id {
      UpdateOne(f.amrs, id, Accepting(job), k);
      AcceptAddsOrder(f.amrs[k], job);
      AcceptKeepsJob(f.amrs[k], job);
      ChangeOne(f, Apply(f, Request(id, job), stationOf), k, Accept(f.amrs[k], job), multiset{OrderOf(job)}, multiset{}, multiset{});
    } else {
      UpdateNone(f.amrs, id, Accepting(job));
      NothingChanges(f, Apply(f, Request(id, job), stationOf));
    }
  }

  lemma CancelBalanced(f: Fleet, id: string, order: string, stationOf: string -> Option<Cell>)
    requires Balanced(f) && order != ""
    ensures Balanced(Apply(f, CancelOrder(id, order), stationOf))
  {
    if k: nat :| k < |f.amrs| && f.amrs[k].id == id {
      UpdateOne(f.amrs, id, Cancelling(order), k);
      CopiesOf(f.amrs, id, order, k);
      CancelOne(f, Apply(f, CancelOrder(id, order), stationOf), k, order);
    } else {
      UpdateNone(f.amrs, id, Cancelling(order));
      CopiesOf(f.amrs, id, order, 0);
      NothingChanges(f, Apply(f, CancelOrder(id, order), stationOf));
    }
  }

  lemma CancelOne(f: Fleet, g: Fleet, k: nat, order: string)
    requires Balanced(f) && order != "" && k < |f.amrs|
    requires g.amrs == f.amrs[k := Cancel(f.amrs[k], order)] && g.accepted == f.accepted && g.arrived == f.arrived
    requires g.cancelled == f.cancelled + multiset{}[order := OrdersOf(f.amrs[k])[order]]
    ensures Balanced(g)
  {
    var a := f.amrs[k];
    var dropped := multiset{}[order := OrdersOf(a)[order]];
    CancelRemovesOrder(a, order);
    CancelFields(a, order);
    assert OrdersOf(a)[order := 0] + multiset{} + dropped == OrdersOf(a) + multiset{};
    ChangeOne(f, g, k, Cancel(a, order), multiset{}, multiset{}, dropped);
  }

  lemma ReserveBalanced(f: Fleet, job: Job, best: nat, stationOf: string -> Option<Cell>)
    requires Balanced(f) && Possible(f, Reserve(job, best))
    ensures Balanced(Apply(f, Reserve(job, best), stationOf))
  {
    if f.amrs != [] {
      AcceptAddsOrder(f.amrs[best], job);
      AcceptKeepsJob(f.amrs[best], job);
      ChangeOne(f, Apply(f, Reserve(job, best), stationOf), best, Accept(f.amrs[best], job), multiset{OrderOf(job)}, multiset{}, multiset{});
    }
  }

  /** Breakdowns and trajectories leave the orders alone. */
  lemma NeutralBalanced(f: Fleet, id: string, op: Op)
    requires Balanced(f) && (op.Breaking? || op.Directing?)
    ensures Balanced(f.(amrs := Update(f.amrs, id, op)))
  {
    var g := f.(amrs := Update(f.amrs, id, op));
    if k: nat :| k < |f.amrs| && f.amrs[k].id == id {
      var b := Perform(f.amrs[k], op);
      UpdateOne(f.amrs, id, op, k);
      SameOrdersConserve(f.amrs[k], b);
      ChangeOne(f, g, k, b, multiset{}, multiset{}, multiset{});
    } else {
      UpdateNone(f.amrs, id, op);
      NothingChanges(f, g);
    }
  }

  lemma StepBalanced(f: Fleet, i: nat, dt: real, failure: Option<real>, plan: Option<seq<Cell>>, stationOf: string -> Option<Cell>)
    requires Balanced(f) && i < |f.amrs|
    ensures Balanced(Apply(f, Step(i, dt, failure, plan), stationOf))
  {
    StepConserves(f.amrs[i], dt, failure, stationOf, plan);
    var (b, signals) := StepAmr(f.amrs[i], dt, failure, stationOf, plan);
    ChangeOne(f, Apply(f, Step(i, dt, failure, plan), stationOf), i, b, multiset{}, ArrivedIn(signals), multiset{});
  }

  lemma ApplyBalanced(f: Fleet, e: Event, stationOf: string -> Option<Cell>)
    requires Balanced(f) && Possible(f, e)
    ensures Balanced(Apply(f, e, stationOf))
  {
    match e
    case Request(id, job) => RequestBalanced(f, id, job, stationOf);
    case Reserve(job, best) => ReserveBalanced(f, job, best, stationOf);
    case CancelOrder(id, order) => CancelBalanced(f, id, order, stationOf);
    case Breakdown(id, seconds) => NeutralBalanced(f, id, Breaking(seconds));
    case Trajectory(id, path) => NeutralBalanced(f, id, Directing(path));
    case Step(i, dt, failure, plan) => StepBalanced(f, i, dt, failure, plan, stationOf);
  }

  /** Over every run of requests, reservations, cancels, breakdowns, trajectories and steps, no order is lost or duplicated. */
  lemma {:induction false} OrdersAreConserved(f: Fleet, es: seq<Event>, stationOf: string -> Option<Cell>)
    requires Balanced(f) && IsRun(f, es, stationOf)
    ensures Balanced(After(f, es, stationOf))
    decreases |es|
  {
    if es != [] {
      ApplyBalanced(f, es[0], stationOf);
      OrdersAreConserved(Apply(f, es[0], stationOf), es[1..], stationOf);
    }
  }

  /** If no id is accepted twice, no id arrives twice, and an order that arrived or was cancelled is nowhere else. */
  lemma ArrivesAtMostOnce(f: Fleet, es: seq<Event>, stationOf: string -> Option<Cell>, order: string)
    requires Balanced(f) && IsRun(f, es, stationOf)
    requires After(f, es, stationOf).accepted[order] <= 1
    ensures var g := After(f, es, stationOf);
      g.arrived[order] + g.cancelled[order] + Held(g.amrs, order) == g.accepted[order] <= 1
  {
    OrdersAreConserved(f, es, stationOf);
    assert BalancedIn(After(f, es, stationOf), order);
  }

  // ----- the fleet that init sets up

  function InitialAmr(rows: int, i: nat): Amr {
    var home := Cell(1 + i, rows - 1);
    Amr("AMR-" + Decimal(i + 1), home, home, home, 0.0, 1.0 + i as real * 0.6, 0.0, [], 0, IDLE, "", "", [], None, 0, 0, [])
  }

  function InitialAmrs(rows: int, count: nat): (r: seq<Amr>)
    ensures |r| == count && forall i | 0 <= i < count :: r[i] == InitialAmr(rows, i)
  {
    seq(count, i requires 0 <= i < count => InitialAmr(rows, i))
  }

  lemma IdsAreDistinct(rows: int, i: nat, j: nat)
    requires InitialAmr(rows, i).id == InitialAmr(rows, j).id
    ensures i == j
  {
    var s, t := Decimal(i + 1), Decimal(j + 1);
    assert s == ("AMR-" + s)[4..] && t == ("AMR-" + t)[4..];
    DecimalIsInjective(i + 1, j + 1);
  }

  lemma {:induction false} NothingCounted(amrs: seq<Amr>, count: Amr -> nat)
    requires forall i | 0 <= i < |amrs| :: count(amrs[i]) == 0
    ensures Total(amrs, count) == 0
  {
    if amrs != [] {
      NothingCounted(amrs[1..], count);
    }
  }

  /** Every run starts balanced. */
  lemma InitialFleetIsBalanced(rows: int, count: nat)
    ensures Balanced(Fleet(InitialAmrs(rows, count), multiset{}, multiset{}, multiset{}))
  {
    var f := Fleet(InitialAmrs(rows, count), multiset{}, multiset{}, multiset{});
    forall i, j | 0 <= i < j < count
      ensures f.amrs[i].id != f.amrs[j].id
    {
      if f.amrs[i].id == f.amrs[j].id {
        IdsAreDistinct(rows, i, j);
      }
    }
    forall order
      ensures BalancedIn(f, order)
    {
      NothingCounted(f.amrs, a => OrdersOf(a)[order]);
    }
  }
}
