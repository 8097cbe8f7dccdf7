/** Organisational schema transitions: begin, commit and clear against the stages of the tick loop, in any
    interleaving. Each stage of a tick is a step of its own. */
module SchemaEpochs {
  import opened Wrappers

  datatype Phase = DRAIN | SUSPEND | COMMITTED

  /** An immutable snapshot; `phaseStart` None stands for NaN. */
  datatype Transition = Transition(targetSchema: string, newEpoch: int, phaseStart: Option<real>, phase: Phase)
  {
    function AdvanceTo(next: Phase, time: Option<real>): Transition {
      this.(phase := next, phaseStart := time)
    }
  }

  function StartDrain(target: string, newEpoch: int, time: real): Transition {
    Transition(target, newEpoch, Some(time), DRAIN)
  }

  datatype Stage = Idle | Captured | RpcSent | UtilityDone | FrameSent

  /** What one stage of tick number `tick` sends; frames also carry the active schema. */
  datatype Emission = Emission(tick: nat, stage: Stage, epoch: int, schema: Option<string>)

  datatype World = World(epoch: int, schema: string, active: Option<Transition>,
                         stage: Stage, tick: nat, captured: int, log: seq<Emission>)

  datatype Event =
    | Begin(target: string, time: real)
    | Commit(time: real)
    | Capture | Rpc | Utility | Frame
    | EndTick  // clears a committed transition
    | Abort    // the tick fails with an exception

  predicate Armed(w: World) {
    w.active.Some? && w.active.value.phase != COMMITTED
  }

  // ----- operations

  function BeginTransition(w: World, target: string, time: real): World {
    w.(active := Some(StartDrain(target, w.epoch + 1, time)))
  }

  /** The supervisor ignores a commit without an open transition. */
  function CommitTransition(w: World, time: real): World {
    if !Armed(w) then w
    else
      var t := w.active.value.AdvanceTo(COMMITTED, Some(time));
      w.(epoch := t.newEpoch, schema := t.targetSchema, active := Some(t.AdvanceTo(COMMITTED, None)))
  }

  function ClearCommitted(w: World): World {
    if w.active.Some? && w.active.value.phase == COMMITTED then w.(active := None) else w
  }

  function Send(w: World, stage: Stage, schema: Option<string>): World {
    w.(stage := stage, log := w.log + [Emission(w.tick, stage, w.captured, schema)])
  }

  /** The stages come in this order; the operations may come at any time. */
  predicate Enabled(w: World, e: Event) {
    match e
    case Begin(_, _) => true
    case Commit(_) => true
    case Capture => w.stage == Idle
    case Rpc => w.stage == Captured
    case Utility => w.stage == RpcSent
    case Frame => w.stage == UtilityDone
    case EndTick => w.stage == FrameSent
    case Abort => w.stage != Idle
  }

  function Apply(w: World, e: Event): World
    requires Enabled(w, e)
  {
    match e
    case Begin(target, time) => BeginTransition(w, target, time)
    case Commit(time) => CommitTransition(w, time)
    case Capture => w.(stage := Captured, captured := w.epoch)
    case Rpc => Send(w, RpcSent, None)
    case Utility => Send(w, UtilityDone, None)
    case Frame => Send(w, FrameSent, Some(w.schema))
    case EndTick => ClearCommitted(w).(stage := Idle, tick := w.tick + 1)
    case Abort => w.(stage := Idle, tick := w.tick + 1)
  }

  predicate IsRun(w: World, es: seq<Event>)
    decreases |es|
  {
    es == [] || (Enabled(w, es[0]) && IsRun(Apply(w, es[0]), es[1..]))
  }

  function After(w: World, es: seq<Event>): World
    requires IsRun(w, es)
    decreases |es|
  {
    if es == [] then w else After(Apply(w, es[0]), es[1..])
  }

  // ----- epochs

  /** An open transition holds the next epoch, a committed one the current epoch. */
  predicate EpochsOk(w: World) {
    w.active.Some? ==> w.active.value.newEpoch == (if Armed(w) then w.epoch + 1 else w.epoch)
  }

  /** The commits of an event list that take effect: those with a begin since the last one. */
  function Effective(es: seq<Event>, armed: bool): nat {
    if es == [] then 0
    else match es[0]
      case Begin(_, _) => Effective(es[1..], true)
      case Commit(_) => (if armed then 1 else 0) + Effective(es[1..], false)
      case _ => Effective(es[1..], armed)
  }

  function ArmedAfter(es: seq<Event>, armed: bool): bool {
    if es == [] then armed
    else match es[0]
      case Begin(_, _) => ArmedAfter(es[1..], true)
      case Commit(_) => ArmedAfter(es[1..], false)
      case _ => ArmedAfter(es[1..], armed)
  }

  lemma ApplyKeepsEpochs(w: World, e: Event)
    requires EpochsOk(w) && Enabled(w, e)
    ensures EpochsOk(Apply(w, e))
    ensures Armed(Apply(w, e)) == (if e.Begin? then true else if e.Commit? then false else Armed(w))
    ensures Apply(w, e).epoch == w.epoch + (if e.Commit? && Armed(w) then 1 else 0)
  {
  }

  function OpenTarget(w: World): Option<string> {
    if Armed(w) then Some(w.active.value.targetSchema) else None
  }

  /** The schema in force after the events: that of the last begin before the last effective commit. */
  function Agreed(es: seq<Event>, open: Option<string>, schema: string): string {
    if es == [] then schema
    else match es[0]
      case Begin(target, _) => Agreed(es[1..], Some(target), schema)
      case Commit(_) => Agreed(es[1..], None, if open.Some? then open.value else schema)
      case _ => Agreed(es[1..], open, schema)
  }

  lemma {:induction false} SchemaIsAgreed(w: World, es: seq<Event>)
    requires IsRun(w, es)
    ensures After(w, es).schema == Agreed(es, OpenTarget(w), w.schema)
    decreases |es|
  {
    if es != [] {
      SchemaIsAgreed(Apply(w, es[0]), es[1..]);
    }
  }

  /** Over every interleaving the epoch counts the effective commits: repeated commits change nothing, overwritten
      begins leave no gap, and a clear never undoes or blocks a transition. */
  lemma {:induction false} EpochCountsCommits(w: World, es: seq<Event>)
    requires EpochsOk(w) && IsRun(w, es)
    ensures EpochsOk(After(w, es))
    ensures After(w, es).epoch == w.epoch + Effective(es, Armed(w))
    ensures Armed(After(w, es)) == ArmedAfter(es, Armed(w))
    decreases |es|
  {
    if es != [] {
      ApplyKeepsEpochs(w, es[0]);
      EpochCountsCommits(Apply(w, es[0]), es[1..]);
    }
  }

  // ----- what a tick sends

  /** Inside a tick, everything sent so far carries the captured epoch; ticks never go back. */
  predicate LogOk(w: World) {
    && w.captured <= w.epoch
    && (forall i | 0 <= i < |w.log| :: w.log[i].tick <= w.tick && w.log[i].epoch <= w.epoch)
    && (forall i | 0 <= i < |w.log| && w.log[i].tick == w.tick :: w.stage != Idle && w.log[i].epoch == w.captured)
    && (w.stage != Idle ==> forall i | 0 <= i < |w.log| :: w.log[i].epoch <= w.captured)
    && (w.stage == Captured ==> forall i | 0 <= i < |w.log| :: w.log[i].tick != w.tick)
    && OneEpochPerTick(w.log)
  }

  /** RPC, utility and frame of one tick carry the same epoch, and later ones never carry an older epoch. */
  predicate OneEpochPerTick(log: seq<Emission>) {
    forall i, j | 0 <= i < j < |log| ::
      log[i].tick <= log[j].tick && log[i].epoch <= log[j].epoch && (log[i].tick == log[j].tick ==> log[i].epoch == log[j].epoch)
  }

  lemma ApplyKeepsLog(w: World, e: Event)
    requires EpochsOk(w) && LogOk(w) && Enabled(w, e)
    ensures LogOk(Apply(w, e))
  {
  }

  lemma {:induction false} TicksCarryOneEpoch(w: World, es: seq<Event>)
    requires EpochsOk(w) && LogOk(w) && IsRun(w, es)
    ensures LogOk(After(w, es)) && OneEpochPerTick(After(w, es).log)
    decreases |es|
  {
    if es != [] {
      ApplyKeepsEpochs(w, es[0]);
      ApplyKeepsLog(w, es[0]);
      TicksCarryOneEpoch(Apply(w, es[0]), es[1..]);
    }
  }

  lemma {:induction false} CaptureLasts(w: World, es: seq<Event>)
    requires IsRun(w, es) && Capture !in es
    ensures After(w, es).captured == w.captured
    decreases |es|
  {
    if es != [] {
      CaptureLasts(Apply(w, es[0]), es[1..]);
    }
  }

  /** The frame of a tick carries the epoch that is current when it is sent exactly if no effective commit came
      between the capture and the frame. A commit in between is seen by the next tick only. */
  lemma FrameIsCurrentIff(w: World, between: seq<Event>)
    requires EpochsOk(w) && Enabled(w, Capture) && Capture !in between
    requires IsRun(Apply(w, Capture), between) && Enabled(After(Apply(w, Capture), between), Frame)
    ensures var v := After(Apply(w, Capture), between); var log := Apply(v, Frame).log;
      && log[|log| - 1].stage == FrameSent && log[|log| - 1].epoch == w.epoch
      && (log[|log| - 1].epoch == v.epoch <==> Effective(between, Armed(w)) == 0)
  {
    var c := Apply(w, Capture);
    EpochCountsCommits(c, between);
    CaptureLasts(c, between);
  }

  lemma {:induction false} OneMoreEvent(w: World, es: seq<Event>, e: Event)
    requires IsRun(w, es) && Enabled(After(w, es), e)
    ensures IsRun(w, es + [e]) && After(w, es + [e]) == Apply(After(w, es), e)
    decreases |es|
  {
    if es == [] {
      assert [e][1..] == [] && [] + [e] == [e];
    } else {
      assert (es + [e])[1..] == es[1..] + [e];
      OneMoreEvent(Apply(w, es[0]), es[1..], e);
    }
  }

  /** Such a frame mixes the old epoch with the new schema name. */
  lemma FrameCanMixEpochs() returns (w: World, es: seq<Event>)
    ensures EpochsOk(w) && LogOk(w) && IsRun(w, es) && w.schema == "centralized" && w.epoch == 0
    ensures After(w, es).epoch == 1
    ensures |After(w, es).log| == 3 && After(w, es).log[2] == Emission(0, FrameSent, 0, Some("adacor"))
  {
    w, es := World(0, "centralized", None, Idle, 0, 0, []), [];
    var todo := [Begin("adacor", 0.0), Capture, Rpc, Utility, Commit(1.0), Frame];
    var v := w;
    for k := 0 to 6
      invariant IsRun(w, es) && After(w, es) == v && EpochsOk(v)
      invariant v.stage == (if k <= 1 then Idle else if k == 2 then Captured else if k == 3 then RpcSent
                            else if k <= 5 then UtilityDone else FrameSent)
      invariant 1 <= k <= 4 ==> v.active == Some(StartDrain("adacor", 1, 0.0))
      invariant v.tick == 0 && v.captured == 0 && v.epoch == (if k <= 4 then 0 else 1) && (k >= 5 ==> v.schema == "adacor")
      invariant |v.log| == (if k <= 2 then 0 else if k == 3 then 1 else if k <= 5 then 2 else 3)
      invariant k == 6 ==> v.log[2] == Emission(0, FrameSent, 0, Some("adacor"))
    {
      OneMoreEvent(w, es, todo[k]);
      es, v := es + [todo[k]], Apply(v, todo[k]);
    }
  }
}
