/** `MainSimulator`, `TimerArtifact` and `SupervisorArtifact`, proved against the steps of SimClock and the operations
    of SchemaEpochs. */
module Simulator {
  import opened Wrappers
  import opened SimClock
  import Epochs = SchemaEpochs
  import MinFirst

  class MainSimulator {
    var currentTime: real
    var nerRegistry: Registry
    var schemaEpoch: int
    var activeOrgSchema: string
    var activeTransition: Option<Epochs.Transition>

    constructor ()
      ensures currentTime == 0.0 && nerRegistry == map[] && schemaEpoch == 0
      ensures activeOrgSchema == "centralized" && activeTransition == None
    {
      currentTime, nerRegistry := 0.0, map[];
      schemaEpoch, activeOrgSchema, activeTransition := 0, "centralized", None;
    }

    method SubmitNER(agentId: string, requestedNextTime: real, tagLatch: Option<nat>)
      modifies this`nerRegistry
      ensures nerRegistry == old(nerRegistry)[agentId := NEREntry(agentId, requestedNextTime, tagLatch)]
    {
      nerRegistry := nerRegistry[agentId := NEREntry(agentId, requestedNextTime, tagLatch)];
    }

    method RemoveNER(agentId: string)
      modifies this`nerRegistry
      ensures nerRegistry == old(nerRegistry) - {agentId}
    {
      nerRegistry := nerRegistry - {agentId};
    }

    /** The loop over the registry and the clamp. */
    method ComputeDt() returns (dt: real)
      ensures IsTimeStep(nerRegistry, currentTime, dt)
    {
      dt := MAX_DT;
      var todo := nerRegistry.Keys;
      while todo != {}
        invariant todo <= nerRegistry.Keys && dt <= MAX_DT
        invariant forall a | a in nerRegistry && a !in todo :: dt <= Wait(nerRegistry, a, currentTime)
        invariant dt < MAX_DT ==> exists a :: a in nerRegistry && Wait(nerRegistry, a, currentTime) == dt
        decreases |todo|
      {
        var a :| a in todo;
        var reqDt := nerRegistry[a].requestedNextTime - currentTime;
        if reqDt < dt {
          dt := reqDt;
          assert Wait(nerRegistry, a, currentTime) == dt;
        }
        todo := todo - {a};
      }
      dt := if dt < MIN_DT then MIN_DT else dt;
    }

    /** The agents that the end of the tick wakes. */
    method IssueTimeAdvanceGrant(ghost w: World) returns (granted: set<string>)
      requires w.now == currentTime && w.registry == nerRegistry
      ensures forall a :: a in granted <==> Granted(w, a)
    {
      granted := {};
      var todo := nerRegistry.Keys;
      while todo != {}
        invariant todo <= nerRegistry.Keys
        invariant forall a :: a in granted <==> a !in todo && Granted(w, a)
        decreases |todo|
      {
        var a :| a in todo;
        if currentTime >= nerRegistry[a].requestedNextTime && nerRegistry[a].tagLatch.Some? {
          granted := granted + {a};
        }
        todo := todo - {a};
      }
    }

    /** The transition state as a world of SchemaEpochs, between ticks. */
    function Transitions(): Epochs.World
      reads this
    {
      Epochs.World(schemaEpoch, activeOrgSchema, activeTransition, Epochs.Idle, 0, 0, [])
    }

    method BeginTransition(target: string, time: real) returns (t: Epochs.Transition)
      modifies this`activeTransition
      ensures activeTransition == Some(t) && Transitions() == Epochs.BeginTransition(old(Transitions()), target, time)
    {
      var nextEpoch := schemaEpoch + 1;
      t := Epochs.StartDrain(target, nextEpoch, time);
      activeTransition := Some(t);
    }

    method CommitTransition(t: Epochs.Transition)
      modifies this`schemaEpoch, this`activeOrgSchema, this`activeTransition
      ensures schemaEpoch == t.newEpoch && activeOrgSchema == t.targetSchema
      ensures activeTransition == Some(t.AdvanceTo(Epochs.COMMITTED, None))
    {
      schemaEpoch := t.newEpoch;
      activeOrgSchema := t.targetSchema;
      activeTransition := Some(t.AdvanceTo(Epochs.COMMITTED, None));
    }

    method ClearCommittedTransition()
      modifies this`activeTransition
      ensures Transitions() == Epochs.ClearCommitted(old(Transitions()))
    {
      if activeTransition.Some? && activeTransition.value.phase == Epochs.COMMITTED {
        activeTransition := None;
      }
    }

    /** One tick, from the time step to the grants. `rpcSucceeded` tells whether the physics RPC advanced the time or
        returned the old one; `fleetNeed` is what the AMR fleet asks for at the end of its update. The epoch is
        captured once and returned for the RPC, the utility system and the frame. */
    method Tick(timer: TimerArtifact, rpcSucceeded: bool, fleetNeed: Option<real>, ghost w: World)
      returns (capturedEpoch: int, granted: set<string>, ghost w': World, ghost dt: real, fired: seq<TimerEntry>)
      requires timer.sim == this && w.now == currentTime && w.registry == nerRegistry && w.timers == timer.timerQueue
      modifies this`currentTime, this`nerRegistry, this`activeTransition, timer
      ensures Step(w, SimClock.Tick(rpcSucceeded, dt, fired, fleetNeed), w')
      ensures w'.now == currentTime && w'.registry == nerRegistry && w'.timers == timer.timerQueue
      ensures capturedEpoch == schemaEpoch && forall a :: a in granted <==> Granted(w', a)
      ensures Transitions() == Epochs.ClearCommitted(old(Transitions()))
    {
      capturedEpoch := schemaEpoch;
      w', dt, fired := AdvanceTime(timer, rpcSucceeded, fleetNeed, w);
      ClearCommittedTransition();
      granted := IssueTimeAdvanceGrant(w');
    }

    method UpdateFleetNeed(fleetNeed: Option<real>)
      modifies this`nerRegistry
      ensures nerRegistry == FleetAsks(old(nerRegistry), currentTime, fleetNeed)
    {
      if fleetNeed.Some? {
        SubmitNER(FLEET, currentTime + fleetNeed.value, None);
      } else {
        RemoveNER(FLEET);
      }
    }

    method AdvanceTime(timer: TimerArtifact, rpcSucceeded: bool, fleetNeed: Option<real>, ghost w: World)
      returns (ghost w': World, ghost dt: real, fired: seq<TimerEntry>)
      requires timer.sim == this && w.now == currentTime && w.registry == nerRegistry && w.timers == timer.timerQueue
      modifies this`currentTime, this`nerRegistry, timer
      ensures Step(w, SimClock.Tick(rpcSucceeded, dt, fired, fleetNeed), w')
      ensures w'.now == currentTime && w'.registry == nerRegistry && w'.timers == timer.timerQueue
    {
      var computedDt := ComputeDt();
      dt := computedDt;
      currentTime := if rpcSucceeded then currentTime + computedDt else currentTime;
      fired := timer.EvaluateTTLs(currentTime);
      UpdateFleetNeed(fleetNeed);
      w' := TickIsStep(w, rpcSucceeded, dt, fired, fleetNeed, nerRegistry, currentTime, timer.timerQueue);
    }
  }

  predicate FiresBefore(a: TimerEntry, b: TimerEntry) {
    a.fireAt <= b.fireAt
  }

  class TimerArtifact {
    const sim: MainSimulator
    var timerQueue: multiset<TimerEntry>

    constructor (sim: MainSimulator)
      ensures this.sim == sim && timerQueue == multiset{}
    {
      this.sim, timerQueue := sim, multiset{};
    }

    method StartTimer(orderId: string, ttlMs: int, agent: string, ghost w: World) returns (ghost w': World)
      requires w.now == sim.currentTime && w.registry == sim.nerRegistry && w.timers == timerQueue
      modifies this, sim`nerRegistry
      ensures Step(w, SimClock.StartTimer(orderId, ttlMs, agent), w')
      ensures w'.registry == sim.nerRegistry && w'.timers == timerQueue
    {
      var fireAt := sim.currentTime + ttlMs as real / 1000.0;
      var t := TimerEntry(orderId, fireAt, agent);
      timerQueue := timerQueue + multiset{t};
      sim.SubmitNER(agent, fireAt, None);
      w' := w.(timers := timerQueue, started := w.started + multiset{t}, registry := sim.nerRegistry);
    }

    /** `removeIf` over the queue. */
    method CancelTimer(orderId: string, agent: string, ghost w: World) returns (ghost w': World)
      requires w.now == sim.currentTime && w.registry == sim.nerRegistry && w.timers == timerQueue
      modifies this, sim`nerRegistry
      ensures Step(w, SimClock.CancelTimer(orderId, agent), w')
      ensures w'.registry == sim.nerRegistry && w'.timers == timerQueue
    {
      var todo := timerQueue;
      var kept: multiset<TimerEntry> := multiset{};
      while |todo| > 0
        invariant forall t: TimerEntry :: t.orderId == orderId && t.agent == agent ==> kept[t] == 0
        invariant forall t: TimerEntry :: !(t.orderId == orderId && t.agent == agent) ==> kept[t] + todo[t] == timerQueue[t]
        decreases |todo|
      {
        var t :| t in todo;
        if !(t.orderId == orderId && t.agent == agent) {
          kept := kept + multiset{t};
        }
        todo := todo - multiset{t};
      }
      timerQueue := kept;
      sim.RemoveNER(agent);
      w' := w.(timers := timerQueue, cancelled := w.cancelled + (w.timers - timerQueue), registry := sim.nerRegistry);
    }

    /** Polls all due timers in order and drops their agents' registry entries. */
    method EvaluateTTLs(simTime: real) returns (fired: seq<TimerEntry>)
      modifies this, sim`nerRegistry
      ensures Polls(old(timerQueue), simTime, fired, timerQueue)
      ensures sim.nerRegistry == old(sim.nerRegistry) - AgentsOf(fired)
    {
      fired := [];
      while |timerQueue| > 0
        invariant Polling(old(timerQueue), simTime, fired, timerQueue)
        invariant sim.nerRegistry == old(sim.nerRegistry) - AgentsOf(fired)
        decreases |timerQueue|
      {
        MinFirst.MinExists(timerQueue, FiresBefore);
        var t :| t in timerQueue && forall u | u in timerQueue :: FiresBefore(t, u);
        if t.fireAt > simTime {
          PollsDone(old(timerQueue), simTime, fired, timerQueue, t);
          return;
        }
        PollOne(old(timerQueue), simTime, fired, timerQueue, t);
        AgentsOfOneMore(fired, t, old(sim.nerRegistry));
        timerQueue := timerQueue - multiset{t};
        fired := fired + [t];
        sim.RemoveNER(t.agent);
      }
    }
  }

  /** In the middle of the poll loop: what was polled is sorted, due, and not after anything that is left. */
  ghost predicate Polling(all: multiset<TimerEntry>, simTime: real, fired: seq<TimerEntry>, queue: multiset<TimerEntry>) {
    && SortedByFire(fired) && all == queue + multiset(fired)
    && forall t | t in fired :: t.fireAt <= simTime && forall u | u in queue :: t.fireAt <= u.fireAt
  }

  lemma PollsDone(all: multiset<TimerEntry>, simTime: real, fired: seq<TimerEntry>, queue: multiset<TimerEntry>, t: TimerEntry)
    requires Polling(all, simTime, fired, queue) && t.fireAt > simTime && forall u | u in queue :: FiresBefore(t, u)
    ensures Polls(all, simTime, fired, queue)
  {
  }

  lemma PollOne(all: multiset<TimerEntry>, simTime: real, fired: seq<TimerEntry>, queue: multiset<TimerEntry>, t: TimerEntry)
    requires Polling(all, simTime, fired, queue) && t in queue && t.fireAt <= simTime
    requires forall u | u in queue :: FiresBefore(t, u)
    ensures Polling(all, simTime, fired + [t], queue - multiset{t})
  {
    var more, left := fired + [t], queue - multiset{t};
    forall i, j | 0 <= i < j < |more|
      ensures more[i].fireAt <= more[j].fireAt
    {
      assert i < |fired| && fired[i] in fired;
    }
    forall x | x in more
      ensures x.fireAt <= simTime && forall u | u in left :: x.fireAt <= u.fireAt
    {
      assert x == t || x in fired;
    }
  }

  lemma AgentsOfOneMore(fired: seq<TimerEntry>, t: TimerEntry, reg: Registry)
    ensures reg - AgentsOf(fired + [t]) == reg - AgentsOf(fired) - {t.agent}
  {
    var both := fired + [t];
    assert both[|fired|] == t;
    forall u | u in fired
      ensures u in both
    {
      var i :| 0 <= i < |fired| && fired[i] == u;
      assert both[i] == u;
    }
    assert AgentsOf(both) == AgentsOf(fired) + {t.agent};
  }

  lemma TickIsStep(w: World, advanced: bool, dt: real, fired: seq<TimerEntry>, need: Option<real>, registry: Registry,
                   now: real, timers: multiset<TimerEntry>) returns (w': World)
    requires IsTimeStep(w.registry, w.now, dt) && now == (if advanced then w.now + dt else w.now)
    requires Polls(w.timers, now, fired, timers) && registry == FleetAsks(w.registry - AgentsOf(fired), now, need)
    ensures Step(w, SimClock.Tick(advanced, dt, fired, need), w')
    ensures w'.now == now && w'.registry == registry && w'.timers == timers
  {
    w' := World(now, registry, timers, w.started, w.log + Firings(fired, w.now, now), w.cancelled);
  }

  class SupervisorArtifact {
    const mainSimulator: MainSimulator

    constructor (sim: MainSimulator)
      ensures mainSimulator == sim
    {
      mainSimulator := sim;
    }

    method InitiateTransition(target: string, time: real) returns (reservedEpoch: int)
      modifies mainSimulator`activeTransition
      ensures mainSimulator.Transitions() == Epochs.BeginTransition(old(mainSimulator.Transitions()), target, time)
      ensures reservedEpoch == mainSimulator.schemaEpoch + 1
    {
      var t := mainSimulator.BeginTransition(target, time);
      reservedEpoch := t.newEpoch;
    }

    /** Ignored without an open transition. */
    method CommitTransition(time: real)
      modifies mainSimulator`schemaEpoch, mainSimulator`activeOrgSchema, mainSimulator`activeTransition
      ensures mainSimulator.Transitions() == Epochs.CommitTransition(old(mainSimulator.Transitions()), time)
    {
      var t := mainSimulator.activeTransition;
      if t.None? || t.value.phase == Epochs.COMMITTED {
        return;
      }
      mainSimulator.CommitTransition(t.value.AdvanceTo(Epochs.COMMITTED, Some(time)));
    }
  }
}
