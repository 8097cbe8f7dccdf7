/** The job side of the AMR fleet as values: what one AMR does with its orders, and the conservation of orders
    over whole runs of requests, cancels, breakdowns and steps. */
module FleetJobs {
  import opened Wrappers
  import opened SpaceTime

  datatype Status = IDLE | MOVING | LOADING | UNLOADING | BLOCKED

  /** A `requestTransport()` call; null references are None. */
  datatype Job = Job(fromStation: Option<string>, toStation: string, orderId: Option<string>)

  datatype Signal = Arrived(amr: string, order: string) | TransportBlocked(amr: string, order: string)

  /** The state of one `AMRSim`. */
  datatype Amr = Amr(
    id: string, home: Cell, pos: Cell, next: Cell, progress: real,
    dwell: real, downtime: real, path: seq<Cell>, pathIndex: nat, status: Status,
    carrying: string, pending: string, destinations: seq<string>, pendingDest: Option<string>,
    blockedTicks: nat, completed: nat, queue: seq<Job>)

  const SEC_PER_CELL := 0.5

  // ----- operations on one AMR

  predicate IsFree(a: Amr) {
    a.downtime <= 0.0 && a.carrying == "" && a.pending == ""
  }

  function OrderOf(job: Job): string {
    if job.orderId.None? then "" else job.orderId.value
  }

  function Load(a: Amr): nat {
    |a.queue| + (if IsFree(a) then 0 else 1)
  }

  function StartJob(a: Amr, job: Job): Amr {
    var direct := job.fromStation.None? || job.fromStation.value == "start";
    a.(destinations := if direct then [job.toStation] else [job.fromStation.value, job.toStation],
       carrying := if direct then OrderOf(job) else "",
       pending := OrderOf(job),
       path := [],
       progress := 0.0)
  }

  /** Start the job on a free AMR, queue it on a busy one. */
  function Accept(a: Amr, job: Job): Amr {
    if IsFree(a) then StartJob(a, job) else a.(queue := a.queue + [job])
  }

  function WithoutOrder(queue: seq<Job>, order: string): seq<Job> {
    if queue == [] then []
    else (if queue[0].orderId == Some(order) then [] else [queue[0]]) + WithoutOrder(queue[1..], order)
  }

  function Cancel(a: Amr, order: string): Amr {
    var b := a.(queue := WithoutOrder(a.queue, order));
    if order == a.pending || order == a.carrying
    then b.(destinations := [], path := [], pathIndex := 0, carrying := "", pending := "")
    else b
  }

  function BreakDown(a: Amr, seconds: real): Amr {
    a.(status := BLOCKED, downtime := seconds)
  }

  // ----- one step of one AMR

  /** What happens at the end of a leg: dropoff, pickup, or nothing to do. */
  function EndLeg(a: Amr): (Amr, seq<Signal>) {
    if a.carrying != "" && a.destinations == [] then
      (a.(carrying := "", pending := "", completed := a.completed + 1, status := UNLOADING), [Arrived(a.id, a.carrying)])
    else if a.pending != "" && a.carrying == "" && |a.destinations| == 1 then
      (a.(carrying := a.pending, status := LOADING), [])
    else
      (a.(status := IDLE), [])
  }

  function StartQueued(a: Amr): Amr {
    if a.destinations == [] && IsFree(a) && a.queue != [] then StartJob(a.(queue := a.queue[1..]), a.queue[0]) else a
  }

  /** The next destination: the one denied last time, else the head of the list, else none (go home). */
  function NextStop(a: Amr): (Amr, Option<string>) {
    if a.pendingDest.Some? then (a.(pendingDest := None), a.pendingDest)
    else if a.destinations != [] then (a.(destinations := a.destinations[1..]), Some(a.destinations[0]))
    else (a, None)
  }

  /** Before planning: the AMR, the stop it is heading for, and the target cell. Heading home drops the load. */
  function Redirect(a: Amr, stationOf: string -> Option<Cell>): (Amr, Option<string>, Cell) {
    var (b, stop) := NextStop(StartQueued(EndLeg(a).0));
    var cell := if stop.None? then None else stationOf(stop.value);
    match cell
    case Some(c) => (b, stop, c)
    case None => (b.(carrying := ""), stop, b.home)
  }

  /** After planning: a non-empty plan is taken up; null and the empty plan both count as a denial. */
  function TakePlan(a: Amr, stop: Option<string>, plan: Option<seq<Cell>>): (Amr, seq<Signal>) {
    if plan.Some? && plan.value != [] then
      (a.(path := plan.value, pathIndex := 0, dwell := 0.6, blockedTicks := 0), [])
    else
      (a.(pendingDest := stop, blockedTicks := a.blockedTicks + 1, status := BLOCKED, path := [], pathIndex := 0, dwell := 1.0),
       if a.blockedTicks + 1 == 3 then [TransportBlocked(a.id, a.carrying)] else [])
  }

  function Advance(a: Amr, dt: real): Amr
    requires a.pathIndex < |a.path|
  {
    var target := a.path[a.pathIndex];
    var p := a.progress + dt / SEC_PER_CELL;
    var b := a.(next := target, status := MOVING);
    if p >= 1.0 then b.(pos := target, progress := 0.0, pathIndex := a.pathIndex + 1) else b.(progress := p)
  }

  predicate AtEndOfPath(a: Amr) {
    a.path == [] || a.pathIndex >= |a.path|
  }

  /** A step that reaches planning: not down, not failing now, not dwelling, and its path used up. `failure` is
      the random breakdown of this tick, with its repair time. */
  predicate PlansNow(a: Amr, failure: Option<real>) {
    a.downtime <= 0.0 && !(a.status == MOVING && failure.Some?) && a.dwell <= 0.0 && AtEndOfPath(a)
  }

  function StepAmr(a: Amr, dt: real, failure: Option<real>, stationOf: string -> Option<Cell>, plan: Option<seq<Cell>>)
    : (Amr, seq<Signal>)
  {
    if a.downtime > 0.0 then
      (if a.downtime - dt <= 0.0 then a.(downtime := 0.0, status := IDLE) else a.(downtime := a.downtime - dt), [])
    else if a.status == MOVING && failure.Some? then (BreakDown(a, failure.value), [])
    else if a.dwell > 0.0 then (a.(dwell := a.dwell - dt), [])
    else if AtEndOfPath(a) then
      var (b, stop, _) := Redirect(a, stationOf);
      var (c, blocked) := TakePlan(b, stop, plan);
      (c, EndLeg(a).1 + blocked)
    else (Advance(a, dt), [])
  }

  // ----- the orders an AMR is responsible for

  function QueueOrders(queue: seq<Job>): multiset<string> {
    if queue == [] then multiset{} else multiset{OrderOf(queue[0])} + QueueOrders(queue[1..])
  }

  /** Queued orders plus the one in progress. */
  function OrdersOf(a: Amr): multiset<string> {
    QueueOrders(a.queue) + (if a.pending == "" then multiset{} else multiset{a.pending})
  }

  function ArrivedIn(signals: seq<Signal>): multiset<string> {
    if signals == [] then multiset{}
    else (if signals[0].Arrived? then multiset{signals[0].order} else multiset{}) + ArrivedIn(signals[1..])
  }

  /** The AMR carries nothing or the order it is committed to, and its queue holds no empty ids. */
  predicate Consistent(a: Amr) {
    (a.carrying == "" || a.carrying == a.pending) && forall i | 0 <= i < |a.queue| :: OrderOf(a.queue[i]) != ""
  }

  lemma {:induction false} QueueOrdersAppend(q: seq<Job>, job: Job)
    ensures QueueOrders(q + [job]) == QueueOrders(q) + multiset{OrderOf(job)}
  {
    if q != [] {
      assert (q + [job])[1..] == q[1..] + [job];
      QueueOrdersAppend(q[1..], job);
    }
  }

  lemma {:induction false} NoEmptyIds(q: seq<Job>)
    requires forall i | 0 <= i < |q| :: OrderOf(q[i]) != ""
    ensures "" !in QueueOrders(q)
  {
    if q != [] {
      NoEmptyIds(q[1..]);
    }
  }

  /** Accepting adds exactly the new order, unless a free AMR is given an empty id: that job is lost. */
  lemma AcceptAddsOrder(a: Amr, job: Job)
    ensures OrdersOf(Accept(a, job)) == OrdersOf(a) + multiset{OrderOf(job)} <==> OrderOf(job) != "" || !IsFree(a)
  {
    QueueOrdersAppend(a.queue, job);
    if IsFree(a) && OrderOf(job) == "" {
      assert OrdersOf(Accept(a, job))[""] != (OrdersOf(a) + multiset{OrderOf(job)})[""];
    }
  }

  /** A started job is never overwritten: accepting leaves a committed AMR's job as it is. */
  lemma AcceptKeepsJob(a: Amr, job: Job)
    ensures a.pending != "" ==> Accept(a, job).(queue := a.queue) == a
    ensures Consistent(a) && OrderOf(job) != "" ==> Consistent(Accept(a, job)) && Load(Accept(a, job)) == Load(a) + 1
  {
  }

  lemma {:induction false} WithoutOrderKeeps(q: seq<Job>, order: string)
    ensures forall i | 0 <= i < |WithoutOrder(q, order)| :: WithoutOrder(q, order)[i] in q
  {
    if q != [] {
      WithoutOrderKeeps(q[1..], order);
    }
  }

  lemma {:induction false} WithoutOrderOrders(q: seq<Job>, order: string)
    requires order != ""
    ensures QueueOrders(WithoutOrder(q, order)) == QueueOrders(q)[order := 0]
  {
    if q != [] {
      WithoutOrderOrders(q[1..], order);
      var rest := WithoutOrder(q[1..], order);
      WithoutOne(QueueOrders(q[1..]), OrderOf(q[0]), order);
      if q[0].orderId == Some(order) {
        assert WithoutOrder(q, order) == rest;
      } else {
        assert ([q[0]] + rest)[1..] == rest;
      }
    }
  }

  lemma WithoutOne(orders: multiset<string>, other: string, order: string)
    ensures (multiset{other} + orders)[order := 0] == (if other == order then multiset{} else multiset{other}) + orders[order := 0]
  {
  }

  /** Cancelling an order removes it from the AMR, wherever it is, and nothing else. An empty id is the one
      exception: it drops a job that is on its way to the pickup. */
  lemma CancelRemovesOrder(a: Amr, order: string)
    requires Consistent(a)
    ensures Consistent(Cancel(a, order))
    ensures OrdersOf(Cancel(a, order)) == OrdersOf(a)[order := 0] <==> (order != "" || a.pending == "" || a.carrying != "")
  {
    CancelStaysConsistent(a, order);
    if order == "" {
      NoEmptyIds(a.queue);
      NothingToRemove(a.queue);
      CancelOfNothing(a);
    } else {
      CancelOfOrder(a, order);
    }
  }

  lemma CancelStaysConsistent(a: Amr, order: string)
    requires Consistent(a)
    ensures Consistent(Cancel(a, order))
  {
    WithoutOrderKeeps(a.queue, order);
    CancelFields(a, order);
  }

  lemma CancelOfOrder(a: Amr, order: string)
    requires Consistent(a) && order != ""
    ensures OrdersOf(Cancel(a, order)) == OrdersOf(a)[order := 0]
  {
    WithoutOrderOrders(a.queue, order);
    CancelFields(a, order);
    WithoutOne(QueueOrders(a.queue), a.pending, order);
  }

  lemma CancelOfNothing(a: Amr)
    requires Consistent(a) && "" !in QueueOrders(a.queue) && WithoutOrder(a.queue, "") == a.queue
    ensures OrdersOf(Cancel(a, "")) == OrdersOf(a)["" := 0] <==> a.pending == "" || a.carrying != ""
  {
    CancelFields(a, "");
    if a.pending != "" && a.carrying == "" {
      assert OrdersOf(Cancel(a, ""))[a.pending] != OrdersOf(a)[a.pending];
    }
  }

  lemma CancelFields(a: Amr, order: string)
    ensures Cancel(a, order).queue == WithoutOrder(a.queue, order)
    ensures order == a.pending || order == a.carrying ==> Cancel(a, order).pending == Cancel(a, order).carrying == ""
    ensures order != a.pending && order != a.carrying
            ==> Cancel(a, order).pending == a.pending && Cancel(a, order).carrying == a.carrying
  {
  }

  lemma {:induction false} NothingToRemove(q: seq<Job>)
    requires forall i | 0 <= i < |q| :: OrderOf(q[i]) != ""
    ensures WithoutOrder(q, "") == q
  {
    if q != [] {
      NothingToRemove(q[1..]);
    }
  }

  lemma EndLegConserves(a: Amr)
    requires Consistent(a)
    ensures EndLeg(a).0.id == a.id && Consistent(EndLeg(a).0) && OrdersOf(EndLeg(a).0) + ArrivedIn(EndLeg(a).1) == OrdersOf(a)
  {
    assert ArrivedIn([Arrived(a.id, a.carrying)]) == multiset{a.carrying} + ArrivedIn([]);
  }

  lemma StartQueuedConserves(a: Amr)
    requires Consistent(a)
    ensures StartQueued(a).id == a.id && Consistent(StartQueued(a)) && OrdersOf(StartQueued(a)) == OrdersOf(a)
  {
    if a.queue != [] {
      var rest := a.(queue := a.queue[1..]);
      assert forall i | 0 <= i < |rest.queue| :: rest.queue[i] == a.queue[i + 1];
      assert QueueOrders(a.queue) == multiset{OrderOf(a.queue[0])} + QueueOrders(rest.queue);
    }
  }

  /** The fields that decide an AMR's orders; redirecting may only drop what it carries. */
  predicate SameOrders(a: Amr, b: Amr) {
    b.id == a.id && b.queue == a.queue && b.pending == a.pending && (b.carrying == "" || b.carrying == a.carrying)
  }

  lemma SameOrdersConserve(a: Amr, b: Amr)
    requires Consistent(a) && SameOrders(a, b)
    ensures Consistent(b) && OrdersOf(b) == OrdersOf(a)
  {
  }

  lemma NextStopKeepsOrders(a: Amr)
    ensures SameOrders(a, NextStop(a).0)
  {
  }

  lemma RedirectKeepsOrders(a: Amr, stationOf: string -> Option<Cell>)
    ensures SameOrders(StartQueued(EndLeg(a).0), Redirect(a, stationOf).0)
  {
    var c := StartQueued(EndLeg(a).0);
    NextStopKeepsOrders(c);
  }

  lemma TakePlanKeepsOrders(a: Amr, stop: Option<string>, plan: Option<seq<Cell>>)
    ensures SameOrders(a, TakePlan(a, stop, plan).0)
    ensures forall k | 0 <= k < |TakePlan(a, stop, plan).1| :: !TakePlan(a, stop, plan).1[k].Arrived?
  {
  }

  lemma {:induction false} NoArrivals(s: seq<Signal>, t: seq<Signal>)
    requires forall k | 0 <= k < |t| :: !t[k].Arrived?
    ensures ArrivedIn(s + t) == ArrivedIn(s)
    decreases |s| + |t|
  {
    if s != [] {
      assert (s + t)[1..] == s[1..] + t;
      NoArrivals(s[1..], t);
    } else if t != [] {
      assert s + t == t && t == [t[0]] + t[1..];
      NoArrivals([], t[1..]);
      assert [] + t[1..] == t[1..];
    }
  }

  /** A step of a consistent AMR only moves orders between its queue, its hands and the arrivals. */
  lemma StepConserves(a: Amr, dt: real, failure: Option<real>, stationOf: string -> Option<Cell>, plan: Option<seq<Cell>>)
    requires Consistent(a)
    ensures var (b, signals) := StepAmr(a, dt, failure, stationOf, plan);
      b.id == a.id && Consistent(b) && OrdersOf(b) + ArrivedIn(signals) == OrdersOf(a)
  {
    if PlansNow(a, failure) {
      PlanningConserves(a, stationOf, plan);
    } else {
      var b := StepAmr(a, dt, failure, stationOf, plan).0;
      assert SameOrders(a, b);
      SameOrdersConserve(a, b);
    }
  }

  lemma PlanningConserves(a: Amr, stationOf: string -> Option<Cell>, plan: Option<seq<Cell>>)
    requires Consistent(a)
    ensures var (b, stop, _) := Redirect(a, stationOf); var (c, blocked) := TakePlan(b, stop, plan);
      c.id == a.id && Consistent(c) && OrdersOf(c) + ArrivedIn(EndLeg(a).1 + blocked) == OrdersOf(a)
  {
    var (b, stop, _) := Redirect(a, stationOf);
    var (c, blocked) := TakePlan(b, stop, plan);
    var ended := EndLeg(a).0;
    EndLegConserves(a);
    StartQueuedConserves(ended);
    RedirectKeepsOrders(a, stationOf);
    SameOrdersConserve(StartQueued(ended), b);
    TakePlanKeepsOrders(b, stop, plan);
    SameOrdersConserve(b, c);
    NoArrivals(EndLeg(a).1, blocked);
  }

  /** An order in progress stays the AMR's order until the step that reports its arrival. */
  lemma OnlyArrivalEndsJob(a: Amr, dt: real, failure: Option<real>, stationOf: string -> Option<Cell>, plan: Option<seq<Cell>>)
    requires Consistent(a) && a.pending != ""
    ensures var (b, signals) := StepAmr(a, dt, failure, stationOf, plan);
      b.pending == a.pending || (signals != [] && signals[0] == Arrived(a.id, a.pending))
  {
    if PlansNow(a, failure) {
      LegEndKeepsJob(a);
      RedirectKeepsOrders(a, stationOf);
      var (b, stop, _) := Redirect(a, stationOf);
      TakePlanKeepsOrders(b, stop, plan);
    }
  }

  lemma LegEndKeepsJob(a: Amr)
    requires Consistent(a) && a.pending != ""
    ensures StartQueued(EndLeg(a).0).pending == a.pending || EndLeg(a).1 == [Arrived(a.id, a.pending)]
  {
  }
}
