/** The lock-stepped clock and its timers as a step relation: artifact operations and ticks are atomic. */
module SimClock {
  import opened Wrappers

  const MIN_DT := 0.01
  const MAX_DT := 1.0
  const FLEET := "amr_fleet"

  /** A next-event request; one per agent. The latch wakes the agent. */
  datatype NEREntry = NEREntry(agentId: string, requestedNextTime: real, tagLatch: Option<nat>)

  type Registry = map<string, NEREntry>

  datatype TimerEntry = TimerEntry(orderId: string, fireAt: real, agent: string)

  /** A timer that was polled, by the tick that went from `before` to `at`. */
  datatype Firing = Firing(timer: TimerEntry, before: real, at: real)

  /** The clock, the registry and the timer queue; and a ledger of all timers started, polled and cancelled. */
  datatype World = World(now: real, registry: Registry, timers: multiset<TimerEntry>,
                         started: multiset<TimerEntry>, log: seq<Firing>, cancelled: multiset<TimerEntry>)

  datatype Event =
    | Submit(entry: NEREntry)
    | Remove(agent: string)
    | StartTimer(orderId: string, ttlMs: int, agent: string)
    | CancelTimer(orderId: string, agent: string)
    // a tick whose RPC succeeded, or returned the old time; the timers it polled; what the fleet asks for
    | Tick(advanced: bool, dt: real, fired: seq<TimerEntry>, fleetNeed: Option<real>)

  // ----- the time step

  function Wait(reg: Registry, agent: string, now: real): real
    requires agent in reg
  {
    reg[agent].requestedNextTime - now
  }

  /** The clamped minimum over all entries: never past an entry that is at least MIN_DT away. */
  ghost predicate IsTimeStep(reg: Registry, now: real, dt: real) {
    && MIN_DT <= dt <= MAX_DT
    && (forall a | a in reg :: Wait(reg, a, now) <= dt ==> dt == MIN_DT || Wait(reg, a, now) == dt)
    && (dt < MAX_DT ==> exists a :: a in reg && Wait(reg, a, now) <= dt)
  }

  /** There is only one such step. */
  lemma TimeStepIsUnique(reg: Registry, now: real, d: real, e: real)
    requires IsTimeStep(reg, now, d) && IsTimeStep(reg, now, e)
    ensures d == e
  {
  }

  /** The clock crawls by its least step exactly while some entry is due, or as good as: an entry left in the past does that. */
  lemma CrawlsIff(reg: Registry, now: real, dt: real)
    requires IsTimeStep(reg, now, dt)
    ensures dt == 0.01 <==> exists a :: a in reg && Wait(reg, a, now) <= 0.01
  {
  }

  // ----- timers

  function Fire(now: real, ttlMs: int): real {
    now + ttlMs as real / 1000.0
  }

  predicate SortedByFire(s: seq<TimerEntry>) {
    forall i, j | 0 <= i < j < |s| :: s[i].fireAt <= s[j].fireAt
  }

  /** What polling does: all due timers, in order of fireAt, and no other. */
  ghost predicate Polls(timers: multiset<TimerEntry>, now: real, fired: seq<TimerEntry>, rest: multiset<TimerEntry>) {
    && SortedByFire(fired)
    && timers == rest + multiset(fired)
    && (forall t | t in fired :: t.fireAt <= now)
    && (forall t | t in rest :: t.fireAt > now)
  }

  ghost predicate Drops(timers: multiset<TimerEntry>, orderId: string, agent: string, rest: multiset<TimerEntry>) {
    forall t :: rest[t] == if t.orderId == orderId && t.agent == agent then 0 else timers[t]
  }

  function AgentsOf(fired: seq<TimerEntry>): set<string> {
    set t | t in fired :: t.agent
  }

  function Firings(fired: seq<TimerEntry>, before: real, at: real): seq<Firing> {
    seq(|fired|, i requires 0 <= i < |fired| => Firing(fired[i], before, at))
  }

  /** The fleet's own entry is replaced or dropped at the end of its update. */
  function FleetAsks(reg: Registry, now: real, need: Option<real>): Registry {
    match need
    case Some(d) => reg[FLEET := NEREntry(FLEET, now + d, None)]
    case None => reg - {FLEET}
  }

  // ----- steps

  ghost predicate Step(w: World, e: Event, w': World) {
    match e
    case Submit(entry) => w' == w.(registry := w.registry[entry.agentId := entry])
    case Remove(agent) => w' == w.(registry := w.registry - {agent})
    case StartTimer(orderId, ttlMs, agent) =>
      var t := TimerEntry(orderId, Fire(w.now, ttlMs), agent);
      w' == w.(timers := w.timers + multiset{t}, started := w.started + multiset{t},
               registry := w.registry[agent := NEREntry(agent, t.fireAt, None)])
    case CancelTimer(orderId, agent) =>
      && w'.now == w.now && w'.started == w.started && w'.log == w.log
      && Drops(w.timers, orderId, agent, w'.timers) && w'.cancelled == w.cancelled + (w.timers - w'.timers)
      && w'.registry == w.registry - {agent}
    case Tick(advanced, dt, fired, need) =>
      && IsTimeStep(w.registry, w.now, dt)
      && w'.now == (if advanced then w.now + dt else w.now)
      && Polls(w.timers, w'.now, fired, w'.timers)
      && w'.started == w.started && w'.cancelled == w.cancelled
      && w'.log == w.log + Firings(fired, w.now, w'.now)
      && w'.registry == FleetAsks(w.registry - AgentsOf(fired), w'.now, need)
  }

  /** The agents whose latch the end of a tick counts down. */
  predicate Granted(w: World, agent: string) {
    agent in w.registry && w.now >= w.registry[agent].requestedNextTime && w.registry[agent].tagLatch.Some?
  }

  ghost predicate StepOf(ws: seq<World>, es: seq<Event>, i: nat)
    requires |ws| == |es| + 1 && i < |es|
  {
    Step(ws[i], es[i], ws[i + 1])
  }

  ghost predicate IsTrace(ws: seq<World>, es: seq<Event>) {
    |ws| == |es| + 1 && forall i: nat | i < |es| :: StepOf(ws, es, i)
  }

  predicate Advances(e: Event) {
    e.Tick? && e.advanced
  }

  /** Successful ticks among es[p..q]. */
  function Ticks(es: seq<Event>, p: nat, q: nat): nat
    requires p <= q <= |es|
  {
    if p == q then 0 else Ticks(es, p, q - 1) + (if Advances(es[q - 1]) then 1 else 0)
  }

  // ----- the clock neither skips a waiter nor stalls

  /** One step of time with respect to one waiting entry. */
  lemma TickReaches(w: World, e: Event, w': World, agent: string)
    requires Step(w, e, w') && agent in w.registry
    ensures w'.now >= w.now + (if Advances(e) then MIN_DT else 0.0)
    ensures var r := w.registry[agent].requestedNextTime;
      w.now < r <= w'.now ==> Advances(e) && w'.now < r + MIN_DT
  {
  }

  lemma {:induction false} TimePasses(ws: seq<World>, es: seq<Event>, p: nat, q: nat)
    requires IsTrace(ws, es) && p <= q <= |es|
    ensures ws[q].now >= ws[p].now + MIN_DT * Ticks(es, p, q) as real
    decreases q - p
  {
    if p < q {
      TimePasses(ws, es, p, q - 1);
      assert StepOf(ws, es, q - 1);
    }
  }

  /** The entry of an agent is neither replaced nor removed between worlds p and q. */
  predicate Kept(ws: seq<World>, p: nat, q: nat, entry: NEREntry)
    requires p <= q < |ws|
  {
    forall k | p <= k <= q :: entry.agentId in ws[k].registry && ws[k].registry[entry.agentId] == entry
  }

  /** An entry registered for a time ahead is granted by the first tick that reaches it, less than MIN_DT late, and
      within ceil((r - now) / MIN_DT) successful ticks, whatever else is in the registry. */
  lemma {:induction false} GrantedOnTime(ws: seq<World>, es: seq<Event>, p: nat, q: nat, entry: NEREntry) returns (k: nat)
    requires IsTrace(ws, es) && p <= q <= |es| && Kept(ws, p, q, entry) && entry.tagLatch.Some?
    requires ws[p].now < entry.requestedNextTime
    requires MIN_DT * Ticks(es, p, q) as real >= entry.requestedNextTime - ws[p].now
    ensures p <= k < q && Advances(es[k])
    ensures ws[k].now < entry.requestedNextTime <= ws[k + 1].now < entry.requestedNextTime + MIN_DT
    ensures Granted(ws[k + 1], entry.agentId) && forall j | p <= j <= k :: !Granted(ws[j], entry.agentId)
    ensures MIN_DT * (Ticks(es, p, k + 1) - 1) as real < entry.requestedNextTime - ws[p].now
  {
    var r := entry.requestedNextTime;
    TimePasses(ws, es, p, q);
    k := p;
    while ws[k + 1].now < r
      invariant p <= k < q && forall j | p <= j <= k :: ws[j].now < r
      decreases q - k
    {
      k := k + 1;
    }
    assert StepOf(ws, es, k);
    TickReaches(ws[k], es[k], ws[k + 1], entry.agentId);
    TimePasses(ws, es, p, k);
  }

  // ----- timers over whole runs

  predicate PositiveTtl(e: Event) {
    e.StartTimer? ==> e.ttlMs > 0
  }

  /** The ledger balances, pending timers lie in the future, and everything polled so far was due, in order. */
  ghost predicate TimersOk(w: World) {
    && w.started == w.timers + Polled(w.log) + w.cancelled
    && (forall t | t in w.timers :: t.fireAt > w.now)
    && (forall i | 0 <= i < |w.log| :: OnTime(w.log[i]) && w.log[i].at <= w.now)
    && (forall i, j | 0 <= i < j < |w.log| :: w.log[i].timer.fireAt <= w.log[j].timer.fireAt)
  }

  /** Polled by the first tick that reaches it, and therefore less than MAX_DT late. */
  predicate OnTime(f: Firing) {
    f.before < f.timer.fireAt <= f.at < f.timer.fireAt + MAX_DT
  }

  function Polled(log: seq<Firing>): multiset<TimerEntry> {
    multiset(seq(|log|, i requires 0 <= i < |log| => log[i].timer))
  }

  lemma PolledAppend(log: seq<Firing>, fired: seq<TimerEntry>, before: real, at: real)
    ensures Polled(log + Firings(fired, before, at)) == Polled(log) + multiset(fired)
  {
    var l := log + Firings(fired, before, at);
    assert seq(|l|, i requires 0 <= i < |l| => l[i].timer) == seq(|log|, i requires 0 <= i < |log| => log[i].timer) + fired;
  }

  /** Starting a timer keeps all pending timers in the future exactly if its TTL is positive. */
  lemma StartKeepsFutureIff(w: World, orderId: string, ttlMs: int, agent: string, w': World)
    requires TimersOk(w) && Step(w, StartTimer(orderId, ttlMs, agent), w')
    ensures TimersOk(w') <==> ttlMs > 0
  {
    var t := TimerEntry(orderId, Fire(w.now, ttlMs), agent);
    assert t in w'.timers;
    assert w'.started == w'.timers + Polled(w'.log) + w'.cancelled;
  }

  lemma PolledInTime(w: World, e: Event, w': World, t: TimerEntry)
    requires TimersOk(w) && e.Tick? && Step(w, e, w') && t in e.fired
    ensures w.now < t.fireAt && OnTime(Firing(t, w.now, w'.now))
  {
    assert t in w.timers;
  }

  lemma LogStaysSorted(w: World, fired: seq<TimerEntry>, at: real)
    requires TimersOk(w) && SortedByFire(fired) && forall t | t in fired :: w.now < t.fireAt
    ensures var log := w.log + Firings(fired, w.now, at);
      forall i, j | 0 <= i < j < |log| :: log[i].timer.fireAt <= log[j].timer.fireAt
  {
    var log, n := w.log + Firings(fired, w.now, at), |w.log|;
    forall i, j | 0 <= i < j < |log|
      ensures log[i].timer.fireAt <= log[j].timer.fireAt
    {
      if j >= n {
        assert log[j].timer == fired[j - n] && fired[j - n] in fired;
        if i >= n {
          assert log[i].timer == fired[i - n];
        } else {
          assert log[i] == w.log[i] && OnTime(w.log[i]);
        }
      } else {
        assert log[i] == w.log[i] && log[j] == w.log[j];
      }
    }
  }

  lemma TickKeepsTimers(w: World, e: Event, w': World)
    requires TimersOk(w) && e.Tick? && Step(w, e, w')
    ensures TimersOk(w')
  {
    PolledAppend(w.log, e.fired, w.now, w'.now);
    forall t | t in e.fired
      ensures w.now < t.fireAt && OnTime(Firing(t, w.now, w'.now))
    {
      PolledInTime(w, e, w', t);
    }
    LogStaysSorted(w, e.fired, w'.now);
    forall i | 0 <= i < |w'.log|
      ensures OnTime(w'.log[i]) && w'.log[i].at <= w'.now
    {
      if i >= |w.log| {
        assert w'.log[i] == Firing(e.fired[i - |w.log|], w.now, w'.now);
        assert e.fired[i - |w.log|] in e.fired;
      } else {
        assert w'.log[i] == w.log[i];
      }
    }
    assert w.started == w'.timers + multiset(e.fired) + Polled(w.log) + w.cancelled;
  }

  lemma CancelKeepsTimers(w: World, e: Event, w': World)
    requires TimersOk(w) && e.CancelTimer? && Step(w, e, w')
    ensures TimersOk(w')
  {
    forall t
      ensures w'.timers[t] <= w.timers[t]
    {
    }
    assert w.timers == w'.timers + (w.timers - w'.timers);
  }

  lemma StepKeepsTimers(w: World, e: Event, w': World)
    requires TimersOk(w) && PositiveTtl(e) && Step(w, e, w')
    ensures TimersOk(w')
  {
    match e
    case StartTimer(orderId, ttlMs, agent) => StartKeepsFutureIff(w, orderId, ttlMs, agent, w');
    case CancelTimer(_, _) => CancelKeepsTimers(w, e, w');
    case Tick(_, _, _, _) => TickKeepsTimers(w, e, w');
    case _ =>
  }

  /** Over every run with positive TTLs: timers fire in order of fireAt across all ticks, each at the first tick that
      reaches it, and no timer is polled more often than it was started. */
  lemma {:induction false} TimersFireInOrder(ws: seq<World>, es: seq<Event>, q: nat)
    requires IsTrace(ws, es) && q <= |es| && TimersOk(ws[0]) && forall e | e in es :: PositiveTtl(e)
    ensures TimersOk(ws[q])
  {
    if q > 0 {
      TimersFireInOrder(ws, es, q - 1);
      assert StepOf(ws, es, q - 1);
      StepKeepsTimers(ws[q - 1], es[q - 1], ws[q]);
    }
  }

  /** While the agent's entry still carries the timer's fireAt, the timer is less than MIN_DT late. */
  lemma RegisteredTimerIsPrompt(w: World, e: Event, w': World, t: TimerEntry)
    requires TimersOk(w) && Step(w, e, w') && e.Tick? && t in e.fired
    requires t.agent in w.registry && w.registry[t.agent].requestedNextTime == t.fireAt
    ensures w'.now < t.fireAt + MIN_DT
  {
    assert t in w.timers;
    TickReaches(w, e, w', t.agent);
  }

  lemma {:induction false} LedgerGrows(ws: seq<World>, es: seq<Event>, p: nat, q: nat, t: TimerEntry)
    requires IsTrace(ws, es) && p <= q <= |es|
    ensures ws[p].cancelled[t] <= ws[q].cancelled[t]
    decreases q - p
  {
    if p < q {
      LedgerGrows(ws, es, p, q - 1, t);
      assert StepOf(ws, es, q - 1);
    }
  }

  /** After a cancel, a timer of that order and agent fires at most as often as it is started again. */
  lemma CancelledNeverFires(ws: seq<World>, es: seq<Event>, p: nat, q: nat, t: TimerEntry)
    requires IsTrace(ws, es) && p < q <= |es| && TimersOk(ws[0]) && forall e | e in es :: PositiveTtl(e)
    requires es[p] == CancelTimer(t.orderId, t.agent)
    ensures Polled(ws[q].log)[t] + ws[p + 1].started[t] <= Polled(ws[p + 1].log)[t] + ws[q].started[t]
  {
    LedgerAt(ws, es, p + 1, t);
    LedgerAt(ws, es, q, t);
    LedgerGrows(ws, es, p + 1, q, t);
    CancelEmpties(ws, es, p, t);
  }

  lemma CancelEmpties(ws: seq<World>, es: seq<Event>, p: nat, t: TimerEntry)
    requires IsTrace(ws, es) && p < |es| && es[p] == CancelTimer(t.orderId, t.agent)
    ensures ws[p + 1].timers[t] == 0
  {
    assert StepOf(ws, es, p);
  }

  lemma LedgerAt(ws: seq<World>, es: seq<Event>, q: nat, t: TimerEntry)
    requires IsTrace(ws, es) && q <= |es| && TimersOk(ws[0]) && forall e | e in es :: PositiveTtl(e)
    ensures Polled(ws[q].log)[t] + ws[q].cancelled[t] + ws[q].timers[t] == ws[q].started[t]
  {
    TimersFireInOrder(ws, es, q);
    assert ws[q].started[t] == (ws[q].timers + Polled(ws[q].log) + ws[q].cancelled)[t];
  }

  /** A timer that is started with a positive TTL lasts that many milliseconds and less than a second more, however many
      ticks, cancels and other timers come in between. */
  lemma TimerLasts(ws: seq<World>, es: seq<Event>, p: nat, q: nat, ttlMs: int, t: TimerEntry)
    requires IsTrace(ws, es) && p < q < |es| && TimersOk(ws[0]) && forall e | e in es :: PositiveTtl(e)
    requires es[p] == StartTimer(t.orderId, ttlMs, t.agent) && ws[p + 1].timers[t] > ws[p].timers[t]
    requires es[q].Tick? && t in es[q].fired
    ensures ws[q].now < ws[p].now + ttlMs as real / 1000.0 <= ws[q + 1].now < ws[p].now + ttlMs as real / 1000.0 + 1.0
  {
    TimersFireInOrder(ws, es, q);
    assert StepOf(ws, es, p) && StepOf(ws, es, q);
    PolledInTime(ws[q], es[q], ws[q + 1], t);
  }

  /** A tick that leaves the fleet active is followed by one no longer than what the fleet asked for, or than the least step. */
  lemma FleetIsServed(w: World, e: Event, w': World, e': Event, w'': World)
    requires Step(w, e, w') && e.Tick? && e.fleetNeed.Some? && Step(w', e', w'') && e'.Tick?
    ensures e'.dt <= if e.fleetNeed.value < 0.01 then 0.01 else e.fleetNeed.value
    ensures 0.01 <= e'.dt <= 1.0
  {
    assert Wait(w'.registry, FLEET, w'.now) == e.fleetNeed.value;
  }

  /** What replaces or drops an agent's entry. */
  predicate Touches(e: Event, agent: string) {
    match e
    case Submit(entry) => entry.agentId == agent
    case Remove(a) => a == agent
    case StartTimer(_, _, a) => a == agent
    case CancelTimer(_, a) => a == agent
    case Tick(_, _, fired, _) => agent == FLEET || agent in AgentsOf(fired)
  }

  /** An agent's entry stands until an event touches it, and nothing else is needed for it to be granted on time. */
  lemma {:induction false} UntouchedStands(ws: seq<World>, es: seq<Event>, p: nat, q: nat, entry: NEREntry)
    requires IsTrace(ws, es) && p <= q <= |es| && forall k | p <= k < q :: !Touches(es[k], entry.agentId)
    requires entry.agentId in ws[p].registry && ws[p].registry[entry.agentId] == entry
    ensures Kept(ws, p, q, entry)
    decreases q - p
  {
    if p < q {
      UntouchedStands(ws, es, p, q - 1, entry);
      assert StepOf(ws, es, q - 1);
    }
  }

  /** An agent that withdraws, cancels its timer, or is told of one, no longer holds up the clock. */
  lemma DroppedIsGone(w: World, e: Event, w': World, agent: string)
    requires Step(w, e, w') && Touches(e, agent) && !e.Submit? && !e.StartTimer?
    requires e.Tick? && agent == FLEET ==> e.fleetNeed.None?
    ensures agent !in w'.registry
  {
  }

  lemma CancelsOnlyItsOwn(w: World, e: Event, w': World, t: TimerEntry)
    requires Step(w, e, w') && e != CancelTimer(t.orderId, t.agent)
    ensures w'.cancelled[t] == w.cancelled[t]
  {
    if e.CancelTimer? {
      assert w'.timers[t] == w.timers[t];
      assert (w.timers - w'.timers)[t] == 0;
    }
  }

  lemma {:induction false} NotCancelled(ws: seq<World>, es: seq<Event>, p: nat, q: nat, t: TimerEntry)
    requires IsTrace(ws, es) && p <= q <= |es| && forall k | p <= k < q :: es[k] != CancelTimer(t.orderId, t.agent)
    ensures ws[q].cancelled[t] == ws[p].cancelled[t]
    decreases q - p
  {
    if p < q {
      NotCancelled(ws, es, p, q - 1, t);
      assert StepOf(ws, es, q - 1);
      CancelsOnlyItsOwn(ws[q - 1], es[q - 1], ws[q], t);
    }
  }

  /** No timer is lost: unless it is cancelled itself, every timer that was pending or was started since has been polled
      once the clock has reached it, each as often as it was started. */
  lemma EveryTimerFires(ws: seq<World>, es: seq<Event>, p: nat, q: nat, t: TimerEntry)
    requires IsTrace(ws, es) && p <= q <= |es| && TimersOk(ws[0]) && forall e | e in es :: PositiveTtl(e)
    requires (forall k | p <= k < q :: es[k] != CancelTimer(t.orderId, t.agent)) && t.fireAt <= ws[q].now
    ensures Polled(ws[q].log)[t] + ws[p].started[t] == Polled(ws[p].log)[t] + ws[p].timers[t] + ws[q].started[t]
  {
    LedgerAt(ws, es, p, t);
    LedgerAt(ws, es, q, t);
    NotCancelled(ws, es, p, q, t);
    TimersFireInOrder(ws, es, q);
    assert t !in ws[q].timers;
  }

  /** A started timer is less than a hundredth of a second late if nothing else concerns its agent until it is polled. */
  lemma StartedTimerIsPrompt(ws: seq<World>, es: seq<Event>, p: nat, q: nat, ttlMs: int, t: TimerEntry)
    requires IsTrace(ws, es) && p < q < |es| && TimersOk(ws[0]) && forall e | e in es :: PositiveTtl(e)
    requires es[p] == StartTimer(t.orderId, ttlMs, t.agent) && t.fireAt == Fire(ws[p].now, ttlMs)
    requires forall k | p < k < q :: !Touches(es[k], t.agent)
    requires es[q].Tick? && t in es[q].fired
    ensures ws[q + 1].now < t.fireAt + 0.01
  {
    var entry := NEREntry(t.agent, t.fireAt, None);
    assert StepOf(ws, es, p) && StepOf(ws, es, q);
    UntouchedStands(ws, es, p + 1, q, entry);
    TimersFireInOrder(ws, es, q);
    RegisteredTimerIsPrompt(ws[q], es[q], ws[q + 1], t);
  }
}
