/** Where a job takes its AMR: to the pickup, then to the drop-off, and only then is it reported. The one thing that can
    come in between is a stop that was denied to an earlier job: neither starting nor cancelling a job clears it. */
module FleetItinerary {
  import opened Wrappers
  import opened SpaceTime
  import opened FleetJobs
  import opened FleetArrivals

  predicate HasPickup(job: Job) {
    job.fromStation.Some? && job.fromStation.value != "start"
  }

  /** A drive to the next moment at which the AMR plans. */
  datatype Drive = Drive(states: seq<Amr>, ticks: seq<Tick>, failure: Option<real>)
  {
    predicate Runs(from: Amr, stationOf: string -> Option<Cell>) {
      IsDrive(states, ticks, stationOf) && states[0] == from && PlansNow(states[|ticks|], failure)
    }

    function End(stationOf: string -> Option<Cell>): Amr
      requires IsDrive(states, ticks, stationOf)
    {
      states[|ticks|]
    }
  }

  /** The cell of a station; an unknown one means the home. */
  function CellFor(a: Amr, station: string, stationOf: string -> Option<Cell>): Cell {
    if stationOf(station).Some? then stationOf(station).value else a.home
  }

  /** What is planned first for a job that was just started: its pickup, exactly if no denied stop is left over. */
  predicate HeadsForPickup(e: Amr, job: Job, stationOf: string -> Option<Cell>)
    requires HasPickup(job)
  {
    var (b, stop, target) := Redirect(e, stationOf);
    && PlansPickUp(e, stationOf) && stop == job.fromStation && target == CellFor(e, job.fromStation.value, stationOf)
    && b.pending == OrderOf(job) && b.destinations == [job.toStation] && b.pendingDest == None
  }

  /** The first leg of a job that a free AMR accepts, after whatever delays. */
  lemma FirstLegIff(a: Amr, job: Job, d: Drive, stationOf: string -> Option<Cell>)
    requires IsFree(a) && OrderOf(job) != "" && HasPickup(job) && d.Runs(Accept(a, job), stationOf)
    ensures HeadsForPickup(d.End(stationOf), job, stationOf) <==> a.pendingDest == None
    ensures a.pendingDest.Some? ==> Redirect(d.End(stationOf), stationOf).1 == a.pendingDest
  {
    DriveKeepsJob(d.states, d.ticks, stationOf, |d.ticks|);
  }

  /** From planning at `e` to the next time the AMR plans, with the planner's answer in between. */
  predicate IsLeg(e: Amr, plan: Option<seq<Cell>>, d: Drive, stationOf: string -> Option<Cell>) {
    var (b, stop, target) := Redirect(e, stationOf);
    d.Runs(TakePlan(b, stop, plan).0, stationOf) && (Granted(plan) ==> plan.value[|plan.value| - 1] == target)
  }

  /** With one left over the job is not lost: once the leg to the left-over stop was granted, the pickup comes next. */
  lemma PickupAfterDetour(a: Amr, job: Job, d: Drive, plan: Option<seq<Cell>>, d': Drive, stationOf: string -> Option<Cell>)
    requires IsFree(a) && OrderOf(job) != "" && HasPickup(job) && a.pendingDest.Some? && d.Runs(Accept(a, job), stationOf)
    requires Granted(plan) && IsLeg(d.End(stationOf), plan, d', stationOf)
    ensures HeadsForPickup(d'.End(stationOf), job, stationOf)
  {
    var e := d.End(stationOf);
    DriveKeepsJob(d.states, d.ticks, stationOf, |d.ticks|);
    StaleStopIsTaken(e, stationOf);
    var (b, stop, target) := Redirect(e, stationOf);
    LegEnds(b, stop, target, plan, d'.states, d'.ticks, d'.failure, stationOf);
  }

  lemma StaleStopIsTaken(e: Amr, stationOf: string -> Option<Cell>)
    requires e.pending != "" && e.carrying == "" && |e.destinations| == 2 && e.pendingDest.Some?
    ensures var b := Redirect(e, stationOf).0;
      && b.pendingDest == None && b.destinations == e.destinations && b.pending == e.pending && b.carrying == ""
  {
  }

  /** What is planned for a loaded job: its drop-off, at the cell of its station. */
  predicate HeadsForDropOff(e: Amr, job: Job, stationOf: string -> Option<Cell>) {
    var (b, stop, target) := Redirect(e, stationOf);
    PlansDropOff(e, stationOf) && b.carrying == OrderOf(job) && stop == Some(job.toStation) && Some(target) == stationOf(job.toStation)
  }

  /** After the leg to the pickup comes the leg to the drop-off, exactly if the first one was granted and the drop-off's
      station exists: a denied pickup is planned again with the load already taken, and an unknown station drops the load. */
  lemma SecondLegIff(e: Amr, job: Job, plan: Option<seq<Cell>>, d: Drive, stationOf: string -> Option<Cell>)
    requires OrderOf(job) != "" && HasPickup(job) && HeadsForPickup(e, job, stationOf) && IsLeg(e, plan, d, stationOf)
    ensures HeadsForDropOff(d.End(stationOf), job, stationOf) <==> Granted(plan) && stationOf(job.toStation).Some?
    ensures !Granted(plan) ==> Redirect(d.End(stationOf), stationOf).1 == job.fromStation
  {
    var (b, stop, target) := Redirect(e, stationOf);
    LegEnds(b, stop, target, plan, d.states, d.ticks, d.failure, stationOf);
  }

  /** A job with a pickup, from its acceptance by a free AMR to its report, over any three drives between its plans: the
      load is taken at the pickup's station, and the order is then reported at the drop-off's. */
  lemma JobIsDelivered(a: Amr, job: Job, d: Drive, toPickup: Option<seq<Cell>>, d': Drive, toDropOff: Option<seq<Cell>>,
                       d'': Drive, stationOf: string -> Option<Cell>)
    requires IsFree(a) && OrderOf(job) != "" && HasPickup(job) && a.pendingDest == None
    requires stationOf(job.fromStation.value).Some? && stationOf(job.toStation).Some?
    requires d.Runs(Accept(a, job), stationOf)
    requires Granted(toPickup) && IsLeg(d.End(stationOf), toPickup, d', stationOf)
    requires Granted(toDropOff) && IsLeg(d'.End(stationOf), toDropOff, d'', stationOf)
    ensures var e := d'.End(stationOf); Some(e.pos) == stationOf(job.fromStation.value) && EndLeg(e).0.carrying == OrderOf(job)
    ensures var e := d''.End(stationOf);
      Some(e.pos) == stationOf(job.toStation) && EndLeg(e).1 == [Arrived(a.id, OrderOf(job))]
  {
    var e, e' := d.End(stationOf), d'.End(stationOf);
    DriveKeepsJob(d.states, d.ticks, stationOf, |d.ticks|);
    FirstLegIff(a, job, d, stationOf);
    SecondLegIff(e, job, toPickup, d', stationOf);
    PicksUpAtTargetIff(e, toPickup, d'.states, d'.ticks, d'.failure, stationOf);
    SameIds(e, toPickup, d', stationOf);
    ArrivesAtTargetIff(e', toDropOff, d''.states, d''.ticks, d''.failure, stationOf);
  }

  lemma SameIds(e: Amr, plan: Option<seq<Cell>>, d: Drive, stationOf: string -> Option<Cell>)
    requires IsLeg(e, plan, d, stationOf)
    ensures d.End(stationOf).id == e.id
  {
    DriveKeepsJob(d.states, d.ticks, stationOf, |d.ticks|);
  }

  /** A job without a pickup is on its way to the drop-off at once, exactly if no denied stop is left over and the station
      exists. */
  lemma DirectLegIff(a: Amr, job: Job, d: Drive, stationOf: string -> Option<Cell>)
    requires IsFree(a) && OrderOf(job) != "" && !HasPickup(job) && d.Runs(Accept(a, job), stationOf)
    ensures HeadsForDropOff(d.End(stationOf), job, stationOf) <==> a.pendingDest == None && stationOf(job.toStation).Some?
  {
    DriveKeepsJob(d.states, d.ticks, stationOf, |d.ticks|);
  }

  /** The same job, from its acceptance to its report. */
  lemma DirectJobIsDelivered(a: Amr, job: Job, d: Drive, plan: Option<seq<Cell>>, d': Drive, stationOf: string -> Option<Cell>)
    requires IsFree(a) && OrderOf(job) != "" && !HasPickup(job) && a.pendingDest == None && stationOf(job.toStation).Some?
    requires d.Runs(Accept(a, job), stationOf) && Granted(plan) && IsLeg(d.End(stationOf), plan, d', stationOf)
    ensures var e := d'.End(stationOf);
      Some(e.pos) == stationOf(job.toStation) && EndLeg(e).1 == [Arrived(a.id, OrderOf(job))]
  {
    DriveKeepsJob(d.states, d.ticks, stationOf, |d.ticks|);
    DirectLegIff(a, job, d, stationOf);
    ArrivesAtTargetIff(d.End(stationOf), plan, d'.states, d'.ticks, d'.failure, stationOf);
  }

  // ----- queued jobs

  /** A queued job is started when the AMR is free and has no stop left, and it is the oldest one. */
  predicate StartsOldest(e: Amr) {
    e.queue != [] && IsFree(EndLeg(e).0) && e.destinations == []
  }

  lemma QueuedLegIff(e: Amr, stationOf: string -> Option<Cell>)
    requires StartsOldest(e) && OrderOf(e.queue[0]) != ""
    ensures HasPickup(e.queue[0]) ==> (HeadsForPickup(e, e.queue[0], stationOf) <==> e.pendingDest == None)
    ensures !HasPickup(e.queue[0])
            ==> (HeadsForDropOff(e, e.queue[0], stationOf) <==> e.pendingDest == None && stationOf(e.queue[0].toStation).Some?)
  {
  }

  lemma RedirectTakesOldest(a: Amr, stationOf: string -> Option<Cell>)
    ensures var b := Redirect(a, stationOf).0;
      if StartsOldest(a) then b.queue == a.queue[1..] && b.pending == OrderOf(a.queue[0]) else b.queue == a.queue
  {
    RedirectKeepsOrders(a, stationOf);
  }

  /** No step touches the queue but for that, and then only its first job leaves and becomes the AMR's own. */
  lemma QueueIsFifo(a: Amr, dt: real, failure: Option<real>, stationOf: string -> Option<Cell>, plan: Option<seq<Cell>>)
    ensures var b := StepAmr(a, dt, failure, stationOf, plan).0;
      if PlansNow(a, failure) && StartsOldest(a) then b.queue == a.queue[1..] && b.pending == OrderOf(a.queue[0])
      else b.queue == a.queue
  {
    if PlansNow(a, failure) {
      RedirectTakesOldest(a, stationOf);
      var (b, stop, _) := Redirect(a, stationOf);
      TakePlanKeepsOrders(b, stop, plan);
    }
  }

  /** A job waits exactly if the AMR is broken down or has a job; it waits behind all the others. */
  lemma WaitsInLineIff(a: Amr, job: Job)
    ensures Accept(a, job) == a.(queue := a.queue + [job]) <==> a.downtime > 0.0 || a.carrying != "" || a.pending != ""
  {
    assert |Accept(a, job).queue| != |a.queue| ==> !IsFree(a);
  }

  /** A free AMR turns to a new job wherever it is on its way, and an AMR whose job is cancelled turns as well: it plans in
      the next step, exactly if nothing holds it up there. */
  lemma TurnsAtOnceIff(a: Amr, job: Job, order: string, failure: Option<real>)
    requires !(a.status == MOVING && failure.Some?) && a.downtime <= 0.0
    ensures IsFree(a) ==> (PlansNow(Accept(a, job), failure) <==> a.dwell <= 0.0) && Accept(a, job).progress == 0.0
    ensures order == a.pending || order == a.carrying ==> (PlansNow(Cancel(a, order), failure) <==> a.dwell <= 0.0)
  {
  }

  // ----- cancelled jobs

  lemma {:induction false} WithoutOrderOfBoth(q: seq<Job>, r: seq<Job>, order: string)
    ensures WithoutOrder(q + r, order) == WithoutOrder(q, order) + WithoutOrder(r, order)
  {
    if q == [] {
      assert q + r == r;
    } else {
      assert (q + r)[1..] == q[1..] + r;
      WithoutOrderOfBoth(q[1..], r, order);
    }
  }

  lemma WithoutOrderOfOne(job: Job, order: string)
    ensures WithoutOrder([job], order) == if job.orderId == Some(order) then [] else [job]
  {
    assert [job][1..] == [] && WithoutOrder([], order) == [];
  }

  /** What is left of a queue: the jobs with other orders, one by one and in their order. */
  lemma CancelKeepsOthers(q: seq<Job>, job: Job, q': seq<Job>, order: string)
    ensures WithoutOrder(q + [job] + q', order)
         == WithoutOrder(q, order) + (if job.orderId == Some(order) then [] else [job]) + WithoutOrder(q', order)
  {
    WithoutOrderOfBoth(q + [job], q', order);
    WithoutOrderOfBoth(q, [job], order);
    WithoutOrderOfOne(job, order);
  }

  /** An AMR whose order in progress is cancelled reports nothing when it plans next, and drives home, exactly if no denied
      stop is left over and no other job waits. */
  lemma CancelledGoesHomeIff(a: Amr, order: string, d: Drive, stationOf: string -> Option<Cell>)
    requires order == a.pending || order == a.carrying
    requires d.Runs(Cancel(a, order), stationOf)
    ensures var e := d.End(stationOf);
      && EndLeg(e).1 == []
      && (Redirect(e, stationOf).1 == None <==> a.pendingDest == None && WithoutOrder(a.queue, order) == [])
      && (Redirect(e, stationOf).1 == None ==> Redirect(e, stationOf).2 == a.home)
  {
    DriveKeepsJob(d.states, d.ticks, stationOf, |d.ticks|);
  }
}
