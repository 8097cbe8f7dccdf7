# Matrix Factory Twin: verified models of its core

Matrix Factory Twin is a discrete-event simulator of a factory: Java artifacts coordinate a fleet of AMRs, a
lock-stepped clock, timers and schema transitions, and Python kernels compute the physics. This project models four
groups of that code in Dafny and proves what they are for.

* **AMR fleet** – `PackedKeys`, `SpaceTime`, `Search`, `AMRArtifact` (module `AMRPlanner`), `FreeSpace`,
  `ReservationRuns`, `EdgeSwaps`, `FleetJobs`, `FleetRuns`, `FleetMotion`,
  `FleetArrivals`, `FleetItinerary`, `FleetDriving`, `AMRFleet`. The space-time A* works on a mutable reservation table (a
  three-dimensional array and a set of packed edge keys) and is proved against the walks that the tables allow. Whole
  runs of planning, refreshing and clearing are proved against a calendar in absolute time; whole runs of the job state
  machine are proved to conserve orders, to take every job from its pickup to its drop-off, and to take the time that
  driving, pauses and repairs take. One tick of the artifact (`UpdatePositions`) yields a trace of both kinds of run.
* **Clock, timers, schema epochs** – `SimClock` and `SchemaEpochs` are the step relations and the theorems about all
  their runs; `Simulator` holds the classes, each method proved to make one of those steps.
* **Numeric kernels** – `Interpolation`, `DensityInversion`, `FuelCell`, `FuelCellSlopes`, `ThermalChain`, `TankFill`,
  `SoecDispatch`, `DeoxoReactor`, `DeoxoKinetics`, over real numbers. Logarithm and exponential are function parameters;
  the theorems use their monotonicity, or their product rule and tangents (`FuelCellSlopes.IsLog`,
  `DeoxoKinetics.IsExponential`).
* **Namespace rewriter** – `NamespaceRewriter`: the chain of whole-word substitutions that isolates parallel runs.

`Wrappers`, `MinFirst`, `Decimals` and `RealAlgebra` are shared helpers. Several properties that the code's comments or
its design suggest do not hold for all inputs; for these the project proves the exact condition (names ending in
`Iff`) or a concrete counterexample, and where code and comments disagree the model follows the code:

* `SupervisorArtifact.java:134-138` says that the frame after a commit carries the new values. A commit between the epoch
  capture and the frame gives a frame with the old epoch and the new schema name (`FrameIsCurrentIff`, `FrameCanMixEpochs`).
* `bilinear_interp_jit` says it clamps to the bounds; outside the grid it clamps the cell but not the weights, so it
  extrapolates (`VariantsAgreeIff`).
* `pemfc_model.py:328-330` promises a smooth concentration patch. The two slopes meet only for a limiting current of 1
  (`PatchIsSmoothIff`); the voltage is nevertheless strictly decreasing, which is what the solver needs.
* The start edge of a plan is never recorded and edges do not shift with the vertices: two AMRs may trade places on the
  first edge, or when they plan in different ticks, and then on any edge (`SwapFreeApartIff`, `SwapAcrossTicks`).
* The SOEC dispatch indexes its limits with an index that runs out for modules above 10 MW (`NeverOverrunsIff`, which
  also says it for other plant minima) and
  activates one module too many just below a whole number of modules (`LimitsMeetReferenceIff`).
* `init` places AMR i in column i + 1, so a fleet as large as the grid is wide starts outside it
  (`InitialFleetOnTrackIff`).
* The reactor's reported peak temperature misses zones without oxygen behind a hotter jacket (`PeakCoversIff`). Before
  the call it can be trusted for every oxygen content exactly if no zone exchanges heat with a jacket hotter than the
  inlet (`NoHeatingCovers`, `HonestForAllIff`); after it, exactly if the outlet is no hotter (`PeakHonestIff`).
* The SOEC plant minimum lowers the number of full modules but not what the target module has to bring, so with a
  positive one that module can be asked for more than its maximum (`LimitsWithinIff`).
* A denied drop-off leg is reported as an arrival at the next planning step, and a denied pickup leg counts as picked
  up, wherever the AMR is stuck (`ArrivesAtTargetIff`, `PicksUpAtTargetIff`).

* A stop that was denied to an earlier job is visited before the pickup or drop-off of the next one: neither starting nor
  cancelling a job clears it (`FirstLegIff`, `DirectLegIff`, `CancelledGoesHomeIff`).
* An SOEC module far below standby is lifted to it in one step, whatever the ramp (`ModuleIsModerate` has the exact case).

Artifact operations and the stages of a tick are atomic steps, in any interleaving. Inputs from outside are parameters:
station names (`stationOf`), random breakdowns, the outcome of the physics RPC (a failing one returns the old time, a tick
that does not advance), in the clock also the fleet's time request (which `UpdatePositions` computes),
and the order in which the stable library sort puts the AMRs.
`clearExpiredReservations` is called by `supervisor_agent.asl:201`; the reservation table's clock therefore counts shifts,
from refreshes and clears alike.

`dafny verify dfyconfig.toml` checks the whole project (Dafny 4.11).

## Model

| member | source | states |
|---|---|---|
| PackedKeys.StateKeysInjectiveIff | src/main/java/factory/AMRArtifact.java:474-476 | closed-set keys of all reachable states are distinct exactly when the horizon fits the bits left to it: 12, or 24 in a grid of one row |
| PackedKeys.StateKeyUnique | src/main/java/factory/AMRArtifact.java:474-476 | equal state keys of 12-bit fields mean equal states |
| PackedKeys.KeysUniqueIn | src/main/java/factory/AMRArtifact.java:474-476 | the same for the ranges that a grid leaves, 24 bits of ticks in a single row included |
| PackedKeys.EdgeKeyValue | src/main/java/factory/AMRArtifact.java:45-48 | what the shifts and ors of an edge key add up to, field by field |
| PackedKeys.EdgeKeyUnique | src/main/java/factory/AMRArtifact.java:45-48 | equal edge keys of in-range fields mean the same directed edge and tick |
| Search.ReconstructPath | src/main/java/factory/AMRArtifact.java:510-518 | following the parents back gives the node's path, start cell left out |
| Search.PathToWalks | src/main/java/factory/AMRArtifact.java:426-445 | the path of a node made by the search is a walk of allowed moves that arrives at the node's tick |
| Search.FrontierMeetsPlan | src/main/java/factory/AMRArtifact.java:466-505 | every walk to the goal passes an open node that is as early as the walk: nothing is lost by closing states |
| Search.GoalPolledFirst | src/main/java/factory/AMRArtifact.java:466-478 | when a goal node is polled, no walk to the goal is shorter |
| Search.EmptyMeansUnreachable | src/main/java/factory/AMRArtifact.java:504-507 | an empty open list means that no walk reaches the goal before the horizon |
| SpaceTime.RemainingSteps | src/main/java/factory/AMRArtifact.java:426-445 | the Manhattan heuristic never overestimates what is left of a walk |
| AMRPlanner.ReservationTable.constructor | src/main/java/factory/AMRArtifact.java:121-127 | an empty table with horizon columns + rows + 4 |
| AMRPlanner.ReservationTable.MayMoveIsOpen | src/main/java/factory/AMRArtifact.java:480-499 | the bounds, vertex and edge checks let through exactly the moves the tables allow |
| AMRPlanner.ReservationTable.SpaceTimeAStar | src/main/java/factory/AMRArtifact.java:453-508 | it terminates; a returned path is in the grid, 4-connected or waiting, free of foreign slots and reserved reverse edges, and arrives before the horizon; with unique keys it is a shortest such path, and null means there is none |
| AMRPlanner.ReservationTable.CommitReservation | src/main/java/factory/AMRArtifact.java:524-538 | exactly the path's slots become the AMR's, at indices one to its length, and exactly its edges from the second on are recorded |
| AMRPlanner.ReservationTable.ClearExpiredReservations | src/main/java/factory/AMRArtifact.java:560-577 | every slot moves one tick nearer and all edges are forgotten |
| AMRPlanner.ReservationTable.RefreshGridOccupancy | src/main/java/factory/AMRArtifact.java:592-610 | every slot moves one tick nearer, index 0 is then marked with the AMRs' cells, and the edges stay |
| SpaceTime.KeysReserveOwnMoves | src/main/java/factory/AMRArtifact.java:524-538 | the keys of a plan reserve exactly its own moves from the second edge on |
| FreeSpace.ManhattanPath | src/main/java/factory/AMRArtifact.java:817-846 | the two straight runs from cell to cell; the guard fires exactly when one of the distances exceeds it, and never inside the grid |
| FreeSpace.WalkIsFeasible | src/main/java/factory/AMRArtifact.java:817-846 | the Manhattan path is allowed when nothing is reserved, within the horizon |
| FreeSpace.FreeGridPlanLength | src/main/java/factory/AMRArtifact.java:453-508 | with nothing reserved the planner always answers, with a plan of exactly the Manhattan length |
| FreeSpace.ManhattanLengthIff | src/main/java/factory/AMRArtifact.java:493-499 | with recorded edges in the way, a lone AMR's plan has Manhattan length exactly if some walk that always comes nearer meets no reversed edge |
| ReservationRuns.RunRefines | src/main/java/factory/AMRArtifact.java:524-610 | over every run of plans, refreshes and clears, the shifting relative table shows the absolute calendar |
| ReservationRuns.PlansAreBest | src/main/java/factory/AMRArtifact.java:453-508 | every plan of a run is a shortest one for its tables wherever the keys are unique |
| ReservationRuns.PlanAvoidsOthers | src/main/java/factory/AMRArtifact.java:484-490 | a granted plan enters no slot that the calendar gives to another AMR |
| ReservationRuns.NeverStolen | src/main/java/factory/AMRArtifact.java:524-538 | over every run a committed future slot keeps its owner until its time has come |
| ReservationRuns.PlansNeverMeet | src/main/java/factory/AMRArtifact.java:453-538 | plans of different AMRs, committed at any two moments of a run, never share a cell at the same time |
| ReservationRuns.MarksNeverMatter | src/main/java/factory/AMRArtifact.java:592-610 | the presence marks at index 0 never change which moves the planner may make |
| ReservationRuns.NoSwapWithinTick | src/main/java/factory/AMRArtifact.java:474-537 | AMRs that plan with no shift in between never cross an edge in opposite directions at a common tick from 1 on |
| EdgeSwaps.SwapFreeApartIff | src/main/java/factory/AMRArtifact.java:524-610 | in all runs, plans of different AMRs made d shifts apart are free of a swap at the earlier plan's tick t exactly if that tick is over, or d is 0 and t at least 1 |
| EdgeSwaps.SwapAcrossTicks | src/main/java/factory/AMRArtifact.java:592-610 | for every d from 1 on and every t in the key range, a run from the fleet's homes in which plans d refreshes apart swap, whatever the presence marks; without a refresh, the same on the first edge |
| EdgeSwaps.TheyAreDirect | src/main/java/factory/AMRArtifact.java:453-508 | its plans have Manhattan length, so none is shorter |
| EdgeSwaps.TimeGoesOn | src/main/java/factory/AMRArtifact.java:560-610 | plans made at the same table time have no shift between them |
| FleetJobs.AcceptAddsOrder | src/main/java/factory/AMRArtifact.java:195-243 | accepting adds exactly the new order, except that a free AMR loses a job without an id |
| FleetJobs.AcceptKeepsJob | src/main/java/factory/AMRArtifact.java:195-243 | a job in progress is never overwritten, and the load goes up by one |
| FleetJobs.CancelRemovesOrder | src/main/java/factory/AMRArtifact.java:254-267 | cancelling removes an order wherever it is and nothing else, with the exact case in which an empty id drops a job |
| FleetJobs.StepConserves | src/main/java/factory/AMRArtifact.java:659-778 | a step moves orders only between the queue, the hands and the arrivals it reports |
| FleetJobs.OnlyArrivalEndsJob | src/main/java/factory/AMRArtifact.java:686-707 | an order in progress stays until the step that reports its arrival |
| FleetArrivals.ArrivesAtTargetIff | src/main/java/factory/AMRArtifact.java:686-761 | after planning a drop-off leg, granted or denied, and whatever delays, the next planning step reports the arrival; the AMR is then in the target's cell exactly if the leg was granted or it stood there already |
| FleetArrivals.PicksUpAtTargetIff | src/main/java/factory/AMRArtifact.java:686-761 | the same for the leg to the pickup: the load is taken at the next planning step, at the pickup exactly if the leg was granted or started there |
| FleetItinerary.FirstLegIff | src/main/java/factory/AMRArtifact.java:226-243 | the first leg of a job that a free AMR accepts goes to the cell of its pickup, exactly if no stop denied to an earlier job is left over; else that stop comes first |
| FleetItinerary.PickupAfterDetour | src/main/java/factory/AMRArtifact.java:709-735 | after a granted leg to the left-over stop the pickup comes next |
| FleetItinerary.SecondLegIff | src/main/java/factory/AMRArtifact.java:686-735 | after the pickup leg comes the drop-off leg with this order on board, exactly if the pickup leg was granted and the station of the drop-off exists |
| FleetItinerary.JobIsDelivered | src/main/java/factory/AMRArtifact.java:226-778 | over any drives between granted plans, the load is taken at the station the job names first and the arrival with its id is reported at the one it names second |
| FleetItinerary.DirectLegIff | src/main/java/factory/AMRArtifact.java:226-243 | a job without a pickup goes straight to its drop-off, exactly if no stop is left over and the station exists |
| FleetItinerary.DirectJobIsDelivered | src/main/java/factory/AMRArtifact.java:226-778 | and is reported there |
| FleetItinerary.QueuedLegIff | src/main/java/factory/AMRArtifact.java:702-735 | a queued job that is started makes for its pickup or drop-off at once, under the same conditions |
| FleetItinerary.QueueIsFifo | src/main/java/factory/AMRArtifact.java:702-707 | the one thing a step does to the queue is to start its oldest job on a free AMR without stops |
| FleetItinerary.WaitsInLineIff | src/main/java/factory/AMRArtifact.java:195-224 | a job waits, behind all others, exactly if the AMR is down or has a job |
| FleetItinerary.TurnsAtOnceIff | src/main/java/factory/AMRArtifact.java:226-267 | accepting a job or cancelling the own one lets the AMR plan in its next step, exactly if it does not pause |
| FleetItinerary.CancelKeepsOthers | src/main/java/factory/AMRArtifact.java:254-258 | cancelling takes exactly the jobs of that order from the queue and keeps the others in their order |
| FleetItinerary.CancelledGoesHomeIff | src/main/java/factory/AMRArtifact.java:254-267 | an AMR whose order is cancelled reports nothing when it plans next, and drives home exactly if no denied stop is left over and no other job waits |
| FleetDriving.CellsTakeTime | src/main/java/factory/AMRArtifact.java:765-777 | over every drive, each cell entered costs half a second of driving time, less the initial progress |
| FleetDriving.EntersWhenDueIff | src/main/java/factory/AMRArtifact.java:765-777 | the next cell is entered in exactly the first step in which the driving time reaches what is left of half a second |
| FleetDriving.NextCellIff | src/main/java/factory/AMRArtifact.java:765-777 | after an entry that is half a second, and the AMR stands on the cell of its path entered last |
| FleetDriving.RestsIff | src/main/java/factory/AMRArtifact.java:742-762 | after a plan the AMR rests for 0.6 s, after a denial for 1 s, and moves or plans in exactly the first step that begins later |
| FleetDriving.RepairTakes | src/main/java/factory/AMRArtifact.java:659-680 | a breakdown blocks the AMR for exactly its repair time and leaves job, path and pause as they were |
| FleetDriving.LegTakes | src/main/java/factory/AMRArtifact.java:659-778 | from one planning to the next a granted leg takes at least 0.6 s and half a second per cell, a denied one at least a second |
| FleetDriving.TrajectoryIsFollowed | src/main/java/factory/AMRArtifact.java:371-419 | a granted trajectory is followed cell by cell to its end, with the job as it was |
| FleetDriving.HelpAtThirdDenialIff | src/main/java/factory/AMRArtifact.java:737-761 | over all calls, completed jobs are the deliveries reported, and the blocked signal comes at exactly the third denial in a row |
| FleetRuns.ReserveIsBalanced | src/main/java/factory/AMRArtifact.java:333-357 | reserving raises exactly one least-loaded AMR's load, by one, and never queues a job while an AMR is free with an empty queue |
| FleetRuns.OrdersAreConserved | src/main/java/factory/AMRArtifact.java:195-267 | over every run, accepted = held by AMRs + arrived + cancelled, for every order id |
| FleetRuns.ArrivesAtMostOnce | src/main/java/factory/AMRArtifact.java:686-707 | an id accepted once arrives at most once, and is then nowhere else |
| FleetRuns.InitialFleetIsBalanced | src/main/java/factory/AMRArtifact.java:139-154 | the fleet set up by init has distinct ids and a balanced ledger |
| FleetMotion.StepMovesOneCell | src/main/java/factory/AMRArtifact.java:659-778 | a step moves an AMR by at most one cell, to the next cell of its path, and only when it is neither down nor dwelling |
| FleetMotion.EventMovesOneCell | src/main/java/factory/AMRArtifact.java:195-267 | no operation moves any AMR by more than one cell or out of the grid, even when it redirects an AMR mid-path |
| FleetMotion.FeasibleIsWalkable | src/main/java/factory/AMRArtifact.java:453-518 | what the planner returns is a path of neighbouring cells in the grid |
| FleetMotion.FleetStaysOnTrack | src/main/java/factory/AMRArtifact.java:659-778 | over every run all AMRs stay in the grid with a connected path ahead |
| FleetMotion.InitialFleetOnTrackIff | src/main/java/factory/AMRArtifact.java:139-154 | the homes of init lie in the grid exactly when there are fewer AMRs than columns |
| AMRFleet.AMRArtifact.constructor | src/main/java/factory/AMRArtifact.java:121-155 | an empty table and AMRs at their homes with staggered dwell times; they stand on the map exactly if there is a row |
| AMRFleet.AMRArtifact.RequestTransport | src/main/java/factory/AMRArtifact.java:195-209 | the addressed AMR accepts the job, the others stay as they are |
| AMRFleet.AMRArtifact.CancelTransport | src/main/java/factory/AMRArtifact.java:254-267 | the addressed AMR drops the order, the others stay as they are |
| AMRFleet.AMRArtifact.TriggerBreakdown | src/main/java/factory/AMRArtifact.java:164-173 | the addressed AMR is down for the given time |
| AMRFleet.AMRArtifact.FindLeastLoaded | src/main/java/factory/AMRArtifact.java:333-346 | the first AMR of least load |
| AMRFleet.AMRArtifact.ReserveTransport | src/main/java/factory/AMRArtifact.java:333-357 | the first least-loaded AMR accepts the job; an empty fleet answers with no AMR and load -1 |
| AMRFleet.AMRArtifact.ReserveTrajectory | src/main/java/factory/AMRArtifact.java:371-419 | granted exactly when the planner answers; then the plan is committed and followed, otherwise nothing changes |
| AMRFleet.AMRArtifact.StepAMR | src/main/java/factory/AMRArtifact.java:659-778 | one AMR's step, and that its plan is the planner's best and committed unless it is empty, which counts as a denial |
| AMRFleet.AMRArtifact.UpdatePositions | src/main/java/factory/AMRArtifact.java:623-657 | one tick is a stretch of the planner runs that ends in a refresh, and a stretch of the fleet runs in which every AMR steps once, the most blocked first, on plans of the planner; its signals are the run's arrivals, and it asks for the least need of the active AMRs, if any |
| AMRFleet.AMRArtifact.SoonestNeed | src/main/java/factory/AMRArtifact.java:639-647 | nothing if all AMRs are idle, else the least of the others' dwell times, each between 0.05 s and the time for one cell |
| AMRFleet.NeedIsSoon | src/main/java/factory/AMRArtifact.java:637-652 | an active fleet asks for a step within half a second and before a pause of at least 0.05 s is over |
| SimClock.TimeStepIsUnique | src/main/java/factory/MainSimulator.java:304-311 | the clamped minimum over the registry is one value, whatever order the entries are read in |
| SimClock.CrawlsIff | src/main/java/factory/MainSimulator.java:304-311 | the clock moves by its least step exactly while some entry is at most that far ahead, or in the past |
| SimClock.GrantedOnTime | src/main/java/factory/MainSimulator.java:304-318 | an entry kept in the registry is granted by the first tick that reaches it, less than MIN_DT late and within the ceiling of its wait over MIN_DT successful ticks, even among stale entries |
| SimClock.UntouchedStands | src/main/java/factory/MainSimulator.java:239-248 | an entry stands until an event of its own agent touches it |
| SimClock.DroppedIsGone | src/main/java/factory/TimerArtifact.java:32-65 | a withdrawal, a cancel and a polled timer drop the agent from the registry |
| SimClock.FleetIsServed | src/main/java/factory/AMRArtifact.java:637-652 | a tick that leaves the fleet active is followed by one no longer than the fleet asked for, or than 0.01 s |
| SimClock.StartKeepsFutureIff | src/main/java/factory/TimerArtifact.java:20-30 | pending timers stay in the future exactly when the TTL is positive |
| SimClock.TimersFireInOrder | src/main/java/factory/TimerArtifact.java:20-65 | over every run with positive TTLs timers fire in order of their times across all ticks, each in the first tick that reaches it, less than MAX_DT late, and no more often than started |
| SimClock.EveryTimerFires | src/main/java/factory/TimerArtifact.java:20-65 | no timer is lost: once the clock has reached it, a timer that was not itself cancelled has been polled as often as it was started |
| SimClock.TimerLasts | src/main/java/factory/TimerArtifact.java:20-65 | a timer lasts its TTL in milliseconds and less than a second more |
| SimClock.StartedTimerIsPrompt | src/main/java/factory/TimerArtifact.java:20-30 | less than a hundredth of a second more if nothing else concerns its agent |
| SimClock.RegisteredTimerIsPrompt | src/main/java/factory/MainSimulator.java:304-320 | while the agent's entry still carries the timer's time, it fires less than MIN_DT late |
| SimClock.CancelledNeverFires | src/main/java/factory/TimerArtifact.java:32-50 | after a cancel a timer fires at most as often as it is started again |
| SchemaEpochs.EpochCountsCommits | src/main/java/factory/MainSimulator.java:516-533 | over every interleaving the epoch counts the effective commits; an open transition holds the next epoch, a committed one the current epoch |
| SchemaEpochs.SchemaIsAgreed | src/main/java/factory/MainSimulator.java:516-533 | over every interleaving the schema in force is that of the last begin before the last effective commit |
| SchemaEpochs.TicksCarryOneEpoch | src/main/java/factory/MainSimulator.java:313-349 | RPC, utility and frame of one tick carry the same epoch, and later ones never an older one |
| SchemaEpochs.FrameIsCurrentIff | src/main/java/factory/SupervisorArtifact.java:134-150 | a frame's epoch is the current one exactly when no effective commit came since the capture |
| SchemaEpochs.FrameCanMixEpochs | src/main/java/factory/SupervisorArtifact.java:134-150 | a run in which a frame carries the old epoch with the new schema |
| Simulator.MainSimulator.SubmitNER | src/main/java/factory/MainSimulator.java:239-248 | one entry per agent, overwritten |
| Simulator.MainSimulator.ComputeDt | src/main/java/factory/MainSimulator.java:304-311 | the least wait of all entries, clamped to MIN_DT and MAX_DT |
| Simulator.MainSimulator.IssueTimeAdvanceGrant | src/main/java/factory/MainSimulator.java:507-514 | wakes exactly the agents whose time has come |
| Simulator.MainSimulator.Tick | src/main/java/factory/MainSimulator.java:304-349 | a tick is a step of the clock, with one captured epoch, and clears a committed transition |
| Simulator.TimerArtifact.StartTimer | src/main/java/factory/TimerArtifact.java:20-30 | queues the timer and registers its agent |
| Simulator.TimerArtifact.CancelTimer | src/main/java/factory/TimerArtifact.java:32-50 | removes exactly the timers of that order and agent, and the agent's entry |
| Simulator.TimerArtifact.EvaluateTTLs | src/main/java/factory/TimerArtifact.java:52-65 | polls exactly the due timers, in order of their times, and removes their agents' entries |
| Simulator.SupervisorArtifact.InitiateTransition | src/main/java/factory/SupervisorArtifact.java:126-132 | reserves the next epoch, replacing an open transition |
| Simulator.SupervisorArtifact.CommitTransition | src/main/java/factory/SupervisorArtifact.java:140-150 | applies the reserved epoch and schema once; without an open transition it changes nothing |
| Interpolation.ClampedIsLocate | physical_engine/optimization/_numba_ops_core_python.py:1779-1875 | clamping cell and weight gives the same position as the shared weights, for every query |
| Interpolation.DirectIsLocateIff | physical_engine/optimization/_numba_ops_core_python.py:1699-1771 | the unclamped weights are the shared ones exactly inside the grid |
| Interpolation.VariantsAgreeIff | physical_engine/optimization/_numba_ops_core_python.py:1699-1771 | weights-then-apply equals direct interpolation on all tables exactly for the queries inside the grid |
| Interpolation.BetweenCorners | physical_engine/optimization/_numba_ops_core_python.py:2794-2853 | the value lies between the four corners of its cell, for every query |
| Interpolation.ExactAtNodes | physical_engine/optimization/_numba_ops_core_python.py:2794-2853 | the table's value at its nodes |
| Interpolation.MixByWeights | physical_engine/optimization/_numba_ops_core_python.py:2873-2884 | the sum over the fractions above 1e-9 |
| Interpolation.MixFast | physical_engine/optimization/_numba_ops_core_python.py:1779-1875 | the sum over the fractions from 1e-12 on, at the clamped position |
| Interpolation.MixOfEquals | physical_engine/optimization/_numba_ops_core_python.py:2873-2884 | a mixture of gases of one enthalpy has that enthalpy, in proportion to the fractions that count |
| Interpolation.MixturesAgreeIff | physical_engine/optimization/_numba_ops_core_python.py:2873-2884 | the two mixture enthalpies agree on all tables and queries exactly when no fraction lies between 1e-12 and 1e-9 |
| DensityInversion.InterpIsIncreasing | physical_engine/optimization/lut_manager.py:640-664 | interpolating an increasing table is strictly increasing over the whole range, across cells |
| DensityInversion.DensityIsIncreasing | physical_engine/optimization/lut_manager.py:640-664 | so is the density in the pressure at any temperature of the table |
| DensityInversion.UniqueInverse | physical_engine/optimization/lut_manager.py:610-638 | a density between those at the pressure limits has exactly one pressure |
| DensityInversion.Bisect | physical_engine/optimization/lut_manager.py:624-638 | for a positive target the loop ends within the tolerance or within the range over 2^(iterations+1) of the inverse; a negative target stops it at once |
| DensityInversion.LookupPressureFromDensity | physical_engine/optimization/lut_manager.py:610-638 | the lowest pressure below the table, the ideal gas above it, and in between the bisection's guarantee for a positive target; in a table of negative densities, a negative target gets the first midpoint |
| FuelCell.ConcentrationGrows | physical_engine/factory_simulation/pemfc_model.py:328-336 | the concentration loss grows with the current across the patch |
| FuelCell.VoltageDrop | physical_engine/factory_simulation/pemfc_model.py:311-342 | the stack voltage falls at least as fast as the ohmic loss alone |
| FuelCell.CurrentsWithin | physical_engine/factory_simulation/pemfc_model.py:311-342 | more current is less voltage, and a voltage belongs to at most one current |
| FuelCell.Jacobian | physical_engine/factory_simulation/pemfc_model.py:382-405 | the solver's derivative is never flatter than the ohmic loss, so its division guard trips on next to no resistance only |
| FuelCell.PatchIsSmoothIff | physical_engine/factory_simulation/pemfc_model.py:392-399 | the two slopes meet at the patch exactly when the limiting current is 1 |
| FuelCell.StepMovesTowardsSolution | physical_engine/factory_simulation/pemfc_model.py:401-409 | a clamped Newton step always moves towards the solution |
| FuelCell.NewtonRaphsonSolver | physical_engine/factory_simulation/pemfc_model.py:345-411 | it returns the first of 50 iterates within the tolerance, and the last one with a failure when there is none |
| FuelCell.ConvergedIsClose | physical_engine/factory_simulation/pemfc_model.py:371-380 | a converged current is within tolerance over the ohmic slope of every exact solution |
| FuelCellSlopes.VoltageFalls | physical_engine/factory_simulation/pemfc_model.py:320-340 | between two currents on one side of the patch the voltage falls by their distance times a slope between the sums of the three coded slopes: activation at the higher current and concentration at the lower, and the other way round |
| FuelCellSlopes.JacobianIsDerivative | physical_engine/factory_simulation/pemfc_model.py:382-402 | the coded Jacobian is the derivative of the coded voltage at every current above the least one but the patch |
| FuelCellSlopes.SlopesInNumbers | physical_engine/factory_simulation/pemfc_model.py:382-399 | the activation slope falls off with the current and the concentration slope grows with the room lost to the limiting current, in numbers |
| FuelCellSlopes.Anchors | physical_engine/factory_simulation/pemfc_model.py:320-336 | at the exchange current there is no activation loss, and without a current no other |
| FuelCellSlopes.StepIsNewton | physical_engine/factory_simulation/pemfc_model.py:404-409 | an unclamped step goes to where the tangent meets the target, and every step into the clamp |
| FuelCellSlopes.StartIsCentralIff | physical_engine/factory_simulation/pemfc_model.py:368-369 | the first guess is the one current that no other of the range is further from than half the range |
| ThermalChain.StepStackThermalND | physical_engine/factory_simulation/stack_thermal_model.py:223-256 | all new temperatures and the removed heat, with the coolant warming from cell to cell |
| ThermalChain.EnergyBalance | physical_engine/factory_simulation/stack_thermal_model.py:235-254 | the cells' gain is exactly the time step times the heat kept |
| ThermalChain.KeptIsRest | physical_engine/factory_simulation/stack_thermal_model.py:235-254 | the heat kept is what all cells generate less what the coolant removes; conduction cancels out |
| ThermalChain.CoolantGains | physical_engine/factory_simulation/stack_thermal_model.py:235-254 | the coolant gains what the cells hand to it; a trickle gains nothing |
| ThermalChain.HeatIsConserved | physical_engine/factory_simulation/stack_thermal_model.py:235-254 | cells and coolant together gain exactly the heat generated |
| ThermalChain.KeptOfTotal | physical_engine/factory_simulation/stack_thermal_model.py:286-297 | with the heat split evenly, the stack keeps the total less the removed heat it reports |
| ThermalChain.RunBalance | physical_engine/factory_simulation/stack_thermal_model.py:279-298 | the same over every run |
| ThermalChain.StaysAbove | physical_engine/factory_simulation/stack_thermal_model.py:235-254 | heating never breaks the lower bound, under the stability condition |
| ThermalChain.KeepsHullIff | physical_engine/factory_simulation/stack_thermal_model.py:235-254 | an unheated step keeps cells and coolant in the hull of cells and inlet exactly under the stability condition, for every number of cells |
| ThermalChain.RunStaysInHull | physical_engine/factory_simulation/stack_thermal_model.py:279-298 | so does every run, for cells and coolant |
| ThermalChain.RunStaysAbove | physical_engine/factory_simulation/stack_thermal_model.py:279-298 | a heated stack never falls below its coldest start and inlet |
| ThermalChain.StackThermalModelND.Step | physical_engine/factory_simulation/stack_thermal_model.py:279-298 | the temperatures are replaced by the next ones, for an even share of the heat |
| ThermalChain.StackThermalModelND.Reset | physical_engine/factory_simulation/stack_thermal_model.py:300-302 | all cells are back at the initial temperature, with no heat reported |
| TankFill.DistributeMassToTanks | physical_engine/optimization/_numba_ops_core_python.py:428-467 | masses, states and overflow after a delivery, in place |
| TankFill.DistributeMassAndEnergy | physical_engine/optimization/_numba_ops_core_python.py:3233-3306 | the same for the variant that also mixes temperatures |
| TankFill.SimulateFillingTimestep | physical_engine/optimization/_numba_ops_core_python.py:497-528 | what is stored is what the tanks gain |
| TankFill.MassIsConserved | physical_engine/optimization/_numba_ops_core_python.py:449-467 | stored mass and overflow add up to the delivery, for all tanks |
| TankFill.OverflowIsExcess | physical_engine/optimization/_numba_ops_core_python.py:449-467 | the overflow is exactly what exceeds the room of all eligible tanks |
| TankFill.FilledInOrder | physical_engine/optimization/_numba_ops_core_python.py:449-467 | each tank gets what the room before it leaves over; none overfills and ineligible ones are untouched |
| TankFill.TakesGasIff | physical_engine/optimization/_numba_ops_core_python.py:451-459 | a tank within its capacity takes gas exactly if it is idle or empty, has room, and gas is left at its turn |
| TankFill.MarkedFullIff | physical_engine/optimization/_numba_ops_core_python.py:464-465 | a tank is full afterwards exactly if it was, or was reached and holds 99 % of its capacity |
| TankFill.VariantsAgreeIff | physical_engine/optimization/_numba_ops_core_python.py:3265-3306 | the two variants store the same exactly when no reached tank is over capacity |
| TankFill.StatesDifferIff | physical_engine/optimization/_numba_ops_core_python.py:3265-3306 | they then overflow the same and differ in the state of exactly the reached tanks that were already full |
| TankFill.HeatGrows | physical_engine/optimization/_numba_ops_core_python.py:3278-3301 | the sum of mass times temperature grows by gamma times the feed temperature per stored mass, less what the clamp takes |
| TankFill.EmptyTankIsClampedIff | physical_engine/optimization/_numba_ops_core_python.py:3287-3296 | an empty tank takes the feed's stagnation temperature over, exactly up to 500 K |
| TankFill.HeatIsConservedIff | physical_engine/optimization/_numba_ops_core_python.py:3278-3301 | nothing is clamped away exactly when no empty tank is filled from a feed above the clamp |
| SoecDispatch.ModuleTowardsLimit | physical_engine/optimization/_numba_ops_core_python.py:1515-1540 | a moving module never passes its limit and reaches it exactly when the ramp allows |
| SoecDispatch.ModuleIsModerate | physical_engine/optimization/_numba_ops_core_python.py:1515-1540 | no module is sent above its limit, its last power and the first step; it rises by at most the larger of the ramp and the start, exactly if it was not further below standby; a start ends at the first step, exactly if that is more than the tolerance above standby |
| SoecDispatch.StepIsModerate | physical_engine/optimization/_numba_ops_core_python.py:1401-1562 | the same of every real module in a non-stationary step |
| SoecDispatch.RunIsModerate | physical_engine/optimization/_numba_ops_core_python.py:1401-1562 | over every run, from the first non-stationary step on, no step lifts a module faster |
| SoecDispatch.SettledStateIff | physical_engine/optimization/_numba_ops_core_python.py:1451-1460 | which states a stationary step changes, and to what |
| SoecDispatch.TargetBringsRestIff | physical_engine/optimization/_numba_ops_core_python.py:1487-1513 | the target module is asked for what the full ones leave of the reference, exactly if that is at least standby and not between standby and the first step |
| SoecDispatch.IdlePlantWindsDown | physical_engine/optimization/_numba_ops_core_python.py:1507-1540 | at the plant minimum every module stops or steps down by the ramp |
| SoecDispatch.DispatchIsSafe | physical_engine/optimization/_numba_ops_core_python.py:1442-1562 | no module exceeds its maximum; after a non-stationary step each is on standby or producing; only starting or stopping modules move faster than the ramp |
| SoecDispatch.LimitsWithinIff | physical_engine/optimization/_numba_ops_core_python.py:1470-1513 | no module is ever asked for more than its maximum exactly if the plant minimum is not positive |
| SoecDispatch.NeverOverrunsIff | physical_engine/optimization/_numba_ops_core_python.py:1470-1513 | for every plant minimum and number of modules, the target index is in range for all inputs exactly for small modules |
| SoecDispatch.SmallModulesIff | physical_engine/optimization/_numba_ops_core_python.py:1470-1513 | without a negative minimum these are modules of up to 10 MW plus a thousand times the minimum |
| SoecDispatch.LimitsMeetReferenceIff | physical_engine/optimization/_numba_ops_core_python.py:1470-1513 | the limits add up to the reference plus the standby surplus, except just below a whole number of modules, where one module too many runs |
| SoecDispatch.StandbyStateIff | physical_engine/optimization/_numba_ops_core_python.py:1542-1553 | the standby state means the standby power |
| SoecDispatch.StatesTellThePower | physical_engine/optimization/_numba_ops_core_python.py:1515-1553 | the other states mean: at the maximum, at the limit, or a full ramp above or below the last power and not yet there |
| SoecDispatch.StepIsUnique | physical_engine/optimization/_numba_ops_core_python.py:1555-1560 | every module is written |
| SoecDispatch.StepCommutesWithRenaming | physical_engine/optimization/_numba_ops_core_python.py:1401-1562 | renumbering the modules in the arrays and in the map changes nothing but the numbers |
| SoecDispatch.RunIsSafe | physical_engine/optimization/_numba_ops_core_python.py:1401-1562 | over every run of references and orders the maximum holds, and modules stay on standby or producing from the first non-stationary step on |
| SoecDispatch.RunNeverOverruns | physical_engine/optimization/_numba_ops_core_python.py:1401-1562 | with small modules no request of any run makes the index run out |
| SoecDispatch.SimulateSoecStep | physical_engine/optimization/_numba_ops_core_python.py:1401-1562 | the step on the real modules in the order of the map; out of range, nothing has been written |
| DeoxoReactor.SolveDeoxoMultizone | physical_engine/optimization/_numba_ops_core_python.py:2131-2321 | the zone loop records the whole profile inside its arrays and reports the final state, or nothing after a division by zero |
| DeoxoReactor.IntegrateZone | physical_engine/optimization/_numba_ops_core_python.py:2230-2313 | the integration loop of one zone |
| DeoxoReactor.PointsFit | physical_engine/optimization/_numba_ops_core_python.py:2177-2183 | the profile fits the arrays for every number of zones and steps |
| DeoxoReactor.StepIsAdiabatic | physical_engine/optimization/_numba_ops_core_python.py:2234-2299 | without a jacket an integration step warms the gas by exactly the heat that the converted oxygen releases, whatever the kinetics |
| DeoxoKinetics.UnheatedStep | physical_engine/optimization/_numba_ops_core_python.py:2234-2300 | without heat a step leaves exactly the share 1 - h + h^2/2 - h^3/6 + h^4/24 of the oxygen, h being its length times the speed of the reaction |
| DeoxoKinetics.UnheatedZone | physical_engine/optimization/_numba_ops_core_python.py:2188-2319 | a whole zone leaves that share to the power of its steps |
| DeoxoKinetics.UnheatedZoneReactsIff | physical_engine/optimization/_numba_ops_core_python.py:2188-2228 | such a zone takes oxygen exactly if it is longer than 1e-6 and more than 1e-12 mol/s flow in |
| DeoxoKinetics.InertStep | physical_engine/optimization/_numba_ops_core_python.py:2240-2300 | where nothing reacts a step leaves the same share of the difference to the jacket, for the exchange along its length |
| DeoxoKinetics.RateIsPositive | physical_engine/optimization/_numba_ops_core_python.py:2246-2250 | gas with oxygen reacts |
| DeoxoKinetics.RateIsProportional | physical_engine/optimization/_numba_ops_core_python.py:2246-2250 | in proportion to what is left unconverted and to the rate constant |
| DeoxoKinetics.RateGrowsWithTemperature | physical_engine/optimization/_numba_ops_core_python.py:2246-2250 | and faster the hotter it is, at the same moles per volume |
| DeoxoKinetics.CoolsInTwo | physical_engine/optimization/_numba_ops_core_python.py:2217-2228 | cooling along two lengths one after the other is cooling along both |
| DeoxoKinetics.CoolingBounds | physical_engine/optimization/_numba_ops_core_python.py:2217-2228 | a zone with n transfer units takes at most the share n of the difference to the jacket, and at least n / (1 + n) |
| DeoxoReactor.ReactorKeeps | physical_engine/optimization/_numba_ops_core_python.py:2202-2321 | positions strictly increase and end at the total of the counting zones; conversions are fractions; the unconverted rest is the product of the zones' rests, and the oxygen the inlet's share of it |
| DeoxoReactor.ConversionGrows | physical_engine/optimization/_numba_ops_core_python.py:2298-2319 | the conversion never falls from zone to zone, nor do later points fall below it |
| DeoxoReactor.CoolingIsTowardsJacket | physical_engine/optimization/_numba_ops_core_python.py:2217-2228 | a zone without oxygen moves the temperature towards the jacket's and not past it, and heats exactly when the jacket is hotter |
| DeoxoReactor.NoHeatingCovers | physical_engine/optimization/_numba_ops_core_python.py:2202-2321 | with or without oxygen, zones that cannot warm gas at the inlet's temperature never lift the profile above the peak |
| DeoxoReactor.HonestForAllIff | physical_engine/optimization/_numba_ops_core_python.py:2202-2321 | before the call: the peak covers the profile for every oxygen content exactly if no counting zone exchanges heat with a jacket hotter than the inlet |
| DeoxoReactor.CodedCools | physical_engine/optimization/_numba_ops_core_python.py:2217-2228 | the coded cooling leaves the temperature alone or brings it strictly nearer to the jacket's |
| DeoxoReactor.ZoneKeepsPeakIff | physical_engine/optimization/_numba_ops_core_python.py:2217-2228 | from any covered profile, a zone keeps the peak covering it exactly if it is skipped, reacts, or ends no hotter than the peak |
| DeoxoReactor.PeakCoversIff | physical_engine/optimization/_numba_ops_core_python.py:2202-2321 | for every list of zones the peak covers the profile exactly if no zone without oxygen ends hotter than the peak it finds |
| DeoxoReactor.PeakMissedIff | physical_engine/optimization/_numba_ops_core_python.py:2202-2321 | for every list of zones without oxygen at the inlet, the profile exceeds the peak exactly if one of the counting zones exchanges heat with a jacket hotter than the inlet |
| DeoxoReactor.PeakHonestIff | physical_engine/optimization/_numba_ops_core_python.py:2202-2321 | for every reactor, the reported peak covers the whole profile exactly if the reported outlet temperature does not exceed it |
| NamespaceRewriter.JoinSplit | scripts/generate_factory_jcm.py:36-39 | a text is its words and separators, in order |
| NamespaceRewriter.SplitJoin | scripts/generate_factory_jcm.py:36-39 | and words and separators can be read back from it |
| NamespaceRewriter.SubIsMap | scripts/generate_factory_jcm.py:38 | one scan for a token at word boundaries renames exactly the words equal to it |
| NamespaceRewriter.LoopIsSimultaneous | scripts/generate_factory_jcm.py:36-39 | the seventeen substitutions one after the other are one simultaneous renaming of whole words |
| NamespaceRewriter.NumberedTokens | scripts/generate_factory_jcm.py:16-24 | five orders, five stations and two AMRs are covered |
| NamespaceRewriter.RewriteContent | scripts/generate_factory_jcm.py:36-39 | the loop computes that renaming; other words and all separators stay |
| NamespaceRewriter.NamesAreDistinct | scripts/generate_factory_jcm.py:36-39 | names of different tokens or runs never coincide |
| NamespaceRewriter.TokensAreNotNames | scripts/generate_factory_jcm.py:16-24 | no renamed word is a token again |
| NamespaceRewriter.FoundIff | scripts/generate_factory_jcm.py:41-45 | a search at word boundaries finds exactly the words of the text |
| NamespaceRewriter.ValidateAsl | scripts/generate_factory_jcm.py:41-45 | accepts exactly the texts without a bare token |
| NamespaceRewriter.RewriteIsValid | scripts/generate_factory_jcm.py:36-45 | the validation accepts every rewritten text |
| NamespaceRewriter.RunsAreIsolatedIff | scripts/generate_factory_jcm.py:36-39 | a rewritten text names an agent of another run exactly when it did so before |
| NamespaceRewriter.RewriteIsFinal | scripts/generate_factory_jcm.py:36-39 | rewriting again, for any run, changes nothing |

## Left out

- PackedKeys.StateKeyUnique: keys are unbounded integers; the 64-bit overflow of coordinates from 2^15 on is not modelled.
- AMRPlanner.ReservationTable.SpaceTimeAStar: completeness and optimality are proved for tables whose state keys are unique (`FitsKeys`: horizon and rows within 4096, or one row and a horizon within 2^24), termination and soundness for all; what the search answers beyond that range is not decided.
- ReservationRuns.PlansNeverMeet: it is about plans; AMRs move by dwell and progress times that are not synchronised with the table, so nothing is said about moving bodies.
- FleetRuns.OrdersAreConserved: order ids are non-empty, as the cognitive layer issues them; the lemmas of FleetJobs say what an empty id does.
- TankFill.OverflowIsExcess: for tanks within their capacity and non-negative deliveries; mass conservation holds without either.
- SoecDispatch.DispatchIsSafe: for no positive plant minimum (with one it is false, see `LimitsWithinIff`) and a first step above standby, as the plant is configured.
- SoecDispatch.SimulateSoecStep: the module map is a permutation; and where the index is out of range the model writes nothing, as plain Python does by raising an error, while the compiled kernel has no bounds check, so that the effect of its stray write is undefined.
- DensityInversion.LookupPressureFromDensity: for temperatures of the table; outside it the densities come from CoolProp. A target of exactly zero inside the table, which divides by zero, is excluded. Targets that are not positive reach the bisection only if the table itself holds such densities.
- EdgeSwaps.SwapAcrossTicks: for ticks below 4096, which the edge keys can tell apart; `SwapFreeApartIff` has no such bound (beyond it, its runs use a clear for the shifts).
- DeoxoReactor.SolveDeoxoMultizone: the integration step enters as a function; the bookkeeping holds for any step, the coded Runge-Kutta step (`Coded`) being one of them.
- NamespaceRewriter.RunsAreIsolatedIff: run ids are natural numbers; a negative start id is not modelled.
- Floating-point rounding, NaN cells and numba's settings: kernels, and the AMRs' driving progress, are over real numbers.
- CoolProp fallbacks outside the temperature range of the table, table generation and caching.
- Nernst potential, exchange current and membrane resistance enter the fuel cell as given numbers: they do not depend on the current. Convergence of the Newton iteration is not claimed.
- Liveness of blocked AMRs and start order under cancels and breakdowns: the code does not provide them.
- Parsing of station names, snapshots for the dashboard, logging and the legacy `reserveTrajectory` stub.
- Wall-clock quorum and thread sleeps of the tick loop, gRPC, telemetry and the utility system's content.
- The rest of `generate_factory_jcm.py`: block extraction by regular expressions, file copying and the structural validation.
- Jason agent plans and Moise organisation files.
- Hysteresis, station claim flags, tank wrappers, heat-transfer correlations and the statistics scripts: they would add only easy members.
