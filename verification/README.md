# Verification of the adaptive mesh runtime

This project models the compiled runtime of the adaptive mesh and the authority layer above it, and
proves what they rely on and promise. `dafny verify dfyconfig.toml` checks all of it.

## The system

A mesh is a list of nodes, each with its outgoing bridges, and a separate map with one lifecycle
record per directed bridge. Exclusive operations add nodes, connect, prune, shock and step; other
components read records between them and commit capabilities against them. The program checks
duplicates in one direction, skips validation when nothing seems to have changed, reuses result
buffers with stale contents, and lets persistent workers write them without a lock. Each of these
is sound only because of what all operations together keep.

| module | content |
|---|---|
| `Common`, `Sums` | vocabulary; sums of reals and pairwise exchange |
| `Dynamics` | positions, orientation, bridges, signals and the reflex filter |
| `MeshState`, `Topology`, `Connecting`, `Pruning` | the mesh as a value, its operations, its invariant, and what connecting and pruning mean |
| `Diffusion` | the synchronous step, its bounds and its exact balance |
| `StepEffects`, `Effects` | what a step and every other operation make of each field, in numbers |
| `Weights` | the two weights of one pair: exactly which signals keep them equal |
| `Symmetry`, `SymmetricRuns`, `Conservation` | when weights stay symmetric, what that conserves over any number of steps, and where it ends |
| `WorkerPool` | the workers, slots and barrier as interleaved actions |
| `StepBuffers`, `MeshLoops`, `PruneLoops`, `Publication` | the loops of the operations, proved against their meaning |
| `MeshRuntime` | the mesh object: fields, flags, buffers, faults and rollback |
| `Tokens`, `Authority` | the token allocator, the ledger, derivation and the verdict of a commit |
| `Refusals` | which answer a commit or a derivation gets, and that spent capabilities stay spent |
| `Runs`, `Revalidation` | whole runs: the invariant, the maximum principle, linearity of commits, when snapshots stay valid |
| `Transitions`, `CommitRuns` | repeated commits on one bridge; how a commit is had |
| `Examples` | reachable meshes at which expectations fail |
| `Lease` | evaluation leases against invalidation and draining |
| `Persistence`, `GateThresholds`, `ProductionPersistence` | the hysteresis gate, when exactly it turns, and the gate of a relationship with its identity |
| `K9Interchange` | the record parser |

The main results are statements about every run: `Runs.RunAll` keeps the invariant that the other
theorems use, and every method of the mesh object is proved to make of the mesh what one event of
such a run makes of it, or nothing when it faults. The pool is a machine whose actions interleave
freely; the object's step uses it through the theorem that its outcome does not depend on the order.
What the operations do to single fields, and which refusal they give, is stated once more in plain
numbers and conditions of the state before, without the functions that the methods are proved against
(`StepEffects`, `Effects`, `GateThresholds`, `Refusals`).

The statements of `docs/mathematics.md` are settled here. Boundedness holds, over whole runs and with
the constants of the code. The conservation conjecture holds as stated, over any number of steps
(`SymmetricRuns.ConjectureHolds`), but its assumption that weights stay symmetric is not kept by the
code in general. A connection keeps symmetric weights exactly when its nodes are level or coincide
(`Symmetry.ConnectSymmetricIff`). A step keeps symmetric weights exactly when the signals of every
pair last (`Symmetry.SymmetryKeptIff`): signals, capacities and gains, where a gain is the attenuation
times the orientation, decide it before the step, by the cases of `Weights.Lasting`:

- where both gains are zero the weights stay zero, and where one is, exactly if the other direction
  drifts;
- otherwise equal signals last if they drift, or if the gains are equal, or if both are noise and
  no capacity is held up by the floor of 0.01;
- different signals last only at an edge of the range: noise at capacity 0.01 against creative at
  capacity 1, or, with both capacities gone, noise against creative at gains in the ratio 15 to 1.

For open bridges without tilt this is agreement: both ends judge each other's state alike, each by its
own health and baseline (`Symmetry.MirroredLasts`). Two reachable meshes of equal weights mark the
limits: `Conservation.SymmetryIsNotEnough` is a level pair that disagrees, and
`Examples.AgreementIsNotEnough` a tilted one that agrees; the next step of either changes the total.
Within the noise margin of all baselines a mesh without tilt keeps symmetry and total for good
(`SymmetricRuns.QuietConserves`). The balance of every step is `Diffusion.MassBalance`.

One result differs from what the identity of a gate's state seems meant for. The gate moves before its
new identity is allocated, so where that allocation fails a change can be undone unseen:
`Revalidation.FailedRenewalsHideChanges` gives the two observations, `Examples.RenewalsFailAtReached`
a reachable system, and `Revalidation.NoAba` says exactly when a snapshot revalidates with such
failures allowed.

Every lemma carries `{:induction false}`: no proof rests on automatic induction.

## Model

| member | source | states |
|---|---|---|
| `MeshRuntime.SpatialAdaptiveMesh.constructor` | src/detail/spatial_adaptive_mesh_impl.hpp:593-604 | a new mesh is the empty one, keeps the invariant, flags both caches, and owns an empty ledger of its domain |
| `MeshRuntime.SpatialAdaptiveMesh.AddNode` | src/detail/spatial_adaptive_mesh_impl.hpp:616-632 | a node is taken only under the next free index; on every outcome, faults included, there is one incarnation per node, and a refusal or fault changes no field |
| `MeshRuntime.SpatialAdaptiveMesh.EnforceStabilityCondition` | src/detail/spatial_adaptive_mesh_impl.hpp:689-693 | recomputing alpha never changes the mesh: alpha is already right, as Effects.AlphaIsLargest says, after every operation |
| `MeshRuntime.SpatialAdaptiveMesh.PreparePairs` | src/detail/spatial_adaptive_mesh_impl.hpp:238-256 | both directions of every pair are prepared with consecutive numbers exactly when all distances are finite and no allocation fails |
| `MeshRuntime.SpatialAdaptiveMesh.Publish` | src/detail/spatial_adaptive_mesh_impl.hpp:280-289 | publishing the prepared edges gives the published mesh and flags both caches exactly when there was an edge |
| `MeshRuntime.SpatialAdaptiveMesh.ConnectPairsUnlocked` | src/detail/spatial_adaptive_mesh_impl.hpp:232-290 | all pairs or none: it succeeds exactly when distances are finite, no key is recorded yet and nothing faults, and otherwise leaves every field as it was |
| `MeshRuntime.SpatialAdaptiveMesh.ConnectChecked` | src/detail/spatial_adaptive_mesh_impl.hpp:232-290 | for pairs that passed the callers' checks an existing relationship is never in the way; the result is the batch specification and the invariant is kept |
| `MeshRuntime.SpatialAdaptiveMesh.ConnectNodes` | src/detail/spatial_adaptive_mesh_impl.hpp:634-651 | succeeds exactly when the pair is admissible and nothing faults; each refusal is given exactly for its reason; the duplicate check in one direction suffices |
| `MeshRuntime.SpatialAdaptiveMesh.ConnectNodePairs` | src/detail/spatial_adaptive_mesh_impl.hpp:657-687 | succeeds exactly when the batch is admissible and nothing faults; refuses for the first objection; otherwise unchanged |
| `MeshRuntime.SpatialAdaptiveMesh.AutoConnectNearbyNodes` | src/detail/spatial_adaptive_mesh_impl.hpp:768-799 | connects every pair within the radius that was not connected, exactly when the radius is not negative, all distances are finite and nothing faults |
| `MeshRuntime.SpatialAdaptiveMesh.DiscardAbsentRelationshipsUnlocked` | src/detail/spatial_adaptive_mesh_impl.hpp:311-327 | keeps exactly the records that still have a bridge |
| `MeshRuntime.SpatialAdaptiveMesh.PruneIsolatedBridges` | src/detail/spatial_adaptive_mesh_impl.hpp:696-766 | makes of the mesh what the pruning specification says; the buffers are flagged exactly when some bridge went |
| `MeshRuntime.SpatialAdaptiveMesh.InjectExternalShock` | src/detail/spatial_adaptive_mesh_impl.hpp:801-809 | the shock of the specification, which Effects.Shocked gives in numbers; a target that does not exist is refused |
| `MeshRuntime.SpatialAdaptiveMesh.ValidateTopologyUnlocked` | src/detail/spatial_adaptive_mesh_impl.hpp:583-590 | validation that is skipped or run never rejects, and is not asked for again |
| `MeshRuntime.SpatialAdaptiveMesh.EnsureWorkerPoolUnlocked` | src/detail/spatial_adaptive_mesh_impl.hpp:478-497 | the pool only grows, up to the resolved count, and a thread that cannot start leaves the pool invariant intact |
| `MeshRuntime.SpatialAdaptiveMesh.PrepareBuffers` | src/detail/spatial_adaptive_mesh_impl.hpp:827-839 | clean shape means that every buffer fits its node; a failed resize leaves the flag set |
| `MeshRuntime.SpatialAdaptiveMesh.RunNode` | src/detail/spatial_adaptive_mesh_impl.hpp:385-417 | the in-place loop over one node's bridges computes the specified buffer and stops where a computation throws |
| `MeshRuntime.SpatialAdaptiveMesh.RunNodeRange` | src/detail/spatial_adaptive_mesh_impl.hpp:379-418 | the loop over a slice is the sequential pass over it |
| `MeshRuntime.SpatialAdaptiveMesh.DispatchAndWait` | src/detail/spatial_adaptive_mesh_impl.hpp:860-904 | whatever the workers' order, the buffers after the barrier are those of one sequential pass, and an error is seen exactly when that pass throws |
| `MeshRuntime.SpatialAdaptiveMesh.ComputeAll` | src/detail/spatial_adaptive_mesh_impl.hpp:846-905 | direct and parallel computation agree, and committing their buffers is the synchronous step |
| `MeshRuntime.SpatialAdaptiveMesh.CommitResults` | src/detail/spatial_adaptive_mesh_impl.hpp:916-925 | the delta commit publishes each node's buffer and nothing else |
| `MeshRuntime.SpatialAdaptiveMesh.SimulationStep` | src/detail/spatial_adaptive_mesh_impl.hpp:811-934 | a step publishes the synchronous step of all nodes, which StepEffects gives field by field, or, whatever fails, changes no node and no record; each outcome is given exactly for its cause |
| `MeshRuntime.SpatialAdaptiveMesh.CommitIsSafe` | src/detail/spatial_adaptive_mesh_impl.hpp:1031-1074 | a recorded relationship has both nodes, its bridge and a sound capacity, so these refusals cannot occur; committing keeps the invariant |
| `MeshRuntime.SpatialAdaptiveMesh.CommitProductionTransition` | src/detail/spatial_adaptive_mesh_impl.hpp:963-1091 | verdict, mesh and ledger after a commit attempt are exactly those specified, which Refusals.AnswerIs and Effects.CommitEffect spell out, with the unreachable checks proved dead |
| `MeshLoops.LargestDegree` | src/detail/spatial_adaptive_mesh_impl.hpp:217-221 | the loop finds the largest number of bridges at any node |
| `MeshLoops.ValidateTopology` | src/detail/spatial_adaptive_mesh_impl.hpp:509-564 | accepts exactly the well-formed topologies, for any adjacency |
| `MeshLoops.AcceptedMeans` | src/detail/spatial_adaptive_mesh_impl.hpp:509-564 | what accepted means for any adjacency: positive bounds, targets that exist and differ from the owner, and a bridge back from each |
| `MeshLoops.InvWellFormed` | src/detail/spatial_adaptive_mesh_impl.hpp:509-564 | no mesh that keeps its invariant is ever rejected |
| `MeshLoops.CheckBatch` | src/detail/spatial_adaptive_mesh_impl.hpp:659-684 | reports the first objection to a batch, if there is one |
| `MeshLoops.ObjectionIs` | src/detail/spatial_adaptive_mesh_impl.hpp:659-684 | which of the four reasons a pair of a batch is refused for, each exactly when it is given |
| `MeshLoops.BatchIffNoObjection` | src/detail/spatial_adaptive_mesh_impl.hpp:657-687 | a batch is admissible exactly when no pair is objected to and all distances are finite |
| `MeshLoops.CollectNearby` | src/detail/spatial_adaptive_mesh_impl.hpp:772-795 | collects exactly the unconnected pairs within the radius, in order |
| `PruneLoops.ScanBridges` | src/detail/spatial_adaptive_mesh_impl.hpp:702-725 | after the first pass the condemned pairs are those with an unhealthy direction, for any adjacency |
| `PruneLoops.ScanCounterparts` | src/detail/spatial_adaptive_mesh_impl.hpp:726-745 | after the second pass they are those and the pairs that lack a direction |
| `PruneLoops.PruneNodes` | src/detail/spatial_adaptive_mesh_impl.hpp:702-759 | the three passes leave exactly the specified nodes, and report a change exactly if there is one |
| `Publication.InsertAll` | src/detail/spatial_adaptive_mesh_impl.hpp:265-279 | all records are inserted or, after the erase loop, the map is the old one; which one is decided exactly |
| `Publication.RollBackRestores` | src/detail/spatial_adaptive_mesh_impl.hpp:276-279 | erasing what was inserted restores the map |
| `Publication.PublishedMeshIs` | src/detail/spatial_adaptive_mesh_impl.hpp:238-289 | prepare, record, publish amounts to connecting the pairs one by one |
| `Publication.AdmissibleUnrecorded` | src/detail/spatial_adaptive_mesh_impl.hpp:269-273 | the refusal for an existing relationship cannot occur for an admissible batch |
| `Topology.EmptyInv` | src/detail/spatial_adaptive_mesh_impl.hpp:171-180 | the empty mesh keeps the invariant |
| `Topology.AddNodeInv` | src/detail/spatial_adaptive_mesh_impl.hpp:616-632 | adding a node keeps the invariant |
| `Topology.ShockInv` | src/detail/spatial_adaptive_mesh_impl.hpp:801-809 | a shock keeps the invariant |
| `Topology.ConnectPairInv` | src/detail/spatial_adaptive_mesh_impl.hpp:232-290 | connecting two nodes without a bridge in one direction keeps adjacency, records and numbers in agreement |
| `Topology.CommitInv` | src/detail/spatial_adaptive_mesh_impl.hpp:1083-1090 | a commit keeps the invariant |
| `Topology.EvolveInv` | src/detail/production_transition_evaluation_internal.hpp:665-671 | an observation by, or a reset of, a gate keeps the invariant, whether or not the identity of the new state can be allocated |
| `Topology.SameShapeInv` | src/detail/spatial_adaptive_mesh_impl.hpp:909-925 | changing only states, healths, capacities and statuses keeps the invariant |
| `Effects.NodeAdded` | src/detail/spatial_adaptive_mesh_impl.hpp:616-632 | every field of a new node, and that nothing else changes |
| `Effects.Shocked` | src/detail/spatial_adaptive_mesh_impl.hpp:801-809 | the state after a shock: moved by the magnitude, but by at most 3.5 either way; the health is that of the new state; no other node or field changes |
| `Effects.ConnectedNodes` | src/detail/spatial_adaptive_mesh_impl.hpp:238-255 | both new bridges in every field, at the end of the two lists, and that no other node changes |
| `Effects.ConnectedRecords` | src/detail/spatial_adaptive_mesh_impl.hpp:238-289 | both new records in every field, forward before backward, and that no other record changes |
| `Effects.Pruned` | src/detail/spatial_adaptive_mesh_impl.hpp:696-766 | exactly the bridges that are healthy in both directions stay, with their records; states, numbers and everything else stay too |
| `Effects.CommitEffect` | src/detail/spatial_adaptive_mesh_impl.hpp:1052-1090 | the bridge after a commit in numbers, its record at the next lineage, and that no other bridge, node or record changes |
| `Effects.GateMoved` | src/detail/production_transition_evaluation_internal.hpp:665-671 | the record after a call of its gate, and that no other changes |
| `Connecting.ConnectAllHasBridge` | src/detail/spatial_adaptive_mesh_impl.hpp:282 | afterwards the bridges are the old ones and both directions of every pair |
| `Connecting.BatchIffSequence` | src/detail/spatial_adaptive_mesh_impl.hpp:657-687 | a batch is admissible exactly when connecting its pairs in order would succeed every time |
| `Connecting.BatchRefinesSequence` | src/detail/spatial_adaptive_mesh_impl.hpp:634-687 | a batch gives exactly the mesh of repeated single connects, numbers and order included, or changes nothing |
| `Connecting.NearbyIsBatch` | src/detail/spatial_adaptive_mesh_impl.hpp:784-796 | the collected pairs are an admissible batch |
| `Connecting.AutoConnectSpec` | src/detail/spatial_adaptive_mesh_impl.hpp:768-799 | afterwards two nodes are connected exactly if they were or lie within the radius |
| `Connecting.AutoConnectInv` | src/detail/spatial_adaptive_mesh_impl.hpp:768-799 | automatic connection keeps the invariant |
| `Pruning.PruneSpec` | src/detail/spatial_adaptive_mesh_impl.hpp:696-766 | for any adjacency: which bridges survive a pruning, exactly |
| `Pruning.PrunedHasBridge` | src/detail/spatial_adaptive_mesh_impl.hpp:747-759 | for any adjacency: which pairs are still connected |
| `Pruning.PrunedIndexed` | src/detail/spatial_adaptive_mesh_impl.hpp:311-327 | the records dropped are exactly those whose bridge went |
| `Pruning.PruneInv` | src/detail/spatial_adaptive_mesh_impl.hpp:696-766 | pruning keeps the invariant |
| `Pruning.PruneTwice` | src/detail/spatial_adaptive_mesh_impl.hpp:696-766 | pruning twice is pruning once with the larger threshold, records and alpha included |
| `Dynamics.EuclideanIsValid` | src/system_architecture.cpp:95-107 | the Euclidean distance meets every assumption made on distances |
| `Dynamics.OrientationBounded` | src/system_architecture.cpp:109-113 | an orientation factor lies in [0, 1] |
| `Dynamics.OrientationSymmetricIff` | src/system_architecture.cpp:109-113 | the two directions weigh the same exactly for level or coincident nodes |
| `Dynamics.UpdateBridgeSound` | src/system_architecture.cpp:144-159 | no signal takes a sound bridge out of its bounds, leaves a capacity between 0 and 0.01, or moves an end |
| `Dynamics.CouplingInUnit` | src/system_architecture.cpp:161-175 | an effective coupling lies in [0, 1] |
| `Dynamics.OrientationComplement` | src/system_architecture.cpp:109-113 | the two directions' factors add up to one, unless the nodes coincide; the upward one is the larger |
| `Dynamics.OrientationMeans` | src/system_architecture.cpp:109-113 | an orientation weighs the rise over the distance, and is 1 between nodes less than a millionth apart |
| `Dynamics.CouplingMeans` | src/system_architecture.cpp:161-175 | the coupling times 1 + distance / 10 is capacity times orientation, and vanishes exactly if one of them does |
| `Dynamics.RepeatedNoise` | src/system_architecture.cpp:146-149 | k noise signals scale the capacity by 0.85 each, not below 0.01, and never isolate |
| `Dynamics.RepeatedCreative` | src/system_architecture.cpp:150-153 | k creative signals add 0.15 each, up to 1; an isolated bridge is normal again exactly from the sixth on |
| `Dynamics.HealthMeans` | src/system_architecture.cpp:194-201 | health is full exactly at the baseline and zero exactly from the safety bound outwards |
| `Dynamics.HealthIs` | src/system_architecture.cpp:194-201 | in between it falls in proportion to the drift |
| `Dynamics.ReflexBounded` | src/system_architecture.cpp:203-214 | inputs within 3.5 pass; any other moves the state by exactly 3.5 in its direction |
| `Diffusion.UncheckedAgrees` | src/detail/spatial_adaptive_mesh_impl.hpp:358-377 | the simulation's own signal rule decides as the meta-evaluator does |
| `Diffusion.StableEverywhere` | src/detail/spatial_adaptive_mesh_impl.hpp:217-228 | alpha is positive, at most 0.2, and at most 0.8 per bridge of any node |
| `Effects.AlphaIsLargest` | src/detail/spatial_adaptive_mesh_impl.hpp:216-229 | the value of alpha in every mesh that keeps the invariant: 0.15 without bridges, otherwise the largest number at most 0.2 and at most 0.8 per bridge of every node |
| `Diffusion.StepInv` | src/detail/spatial_adaptive_mesh_impl.hpp:909-925 | a step keeps the invariant |
| `Diffusion.StepInBand` | docs/mathematics.md:23-28 | boundedness of a step: a band that holds all states still does afterwards |
| `Diffusion.MassBalance` | src/detail/spatial_adaptive_mesh_impl.hpp:385-417 | a step changes the total by alpha times the sum over pairs of (c_ij - c_ji)(s_j - s_i), exactly |
| `Diffusion.ConservedIff` | src/detail/spatial_adaptive_mesh_impl.hpp:385-417 | a step conserves the total exactly when that sum vanishes; Symmetry tells when, before the step |
| `Diffusion.SymmetricConserves` | docs/mathematics.md:30-36 | the documented conjecture for one step: couplings symmetric after the update conserve the total |
| `StepEffects.StepBridge` | src/detail/spatial_adaptive_mesh_impl.hpp:394-412 | every bridge after a step, by the state its far end had: isolated at capacity 0 exactly if that state is outside the owner's bound, otherwise strengthened by 0.15 or damped by 15 percent, with the thresholds in numbers |
| `StepEffects.StepNodeState` | docs/mathematics.md:3-11 | the documented diffusion equation holds of every node, with the weights the step leaves and the old states; the published health is that of the new state |
| `StepEffects.PruneAfterStep` | src/detail/spatial_adaptive_mesh_impl.hpp:696-766 | pruning at zero after a step removes exactly the pairs of which one end saw the other outside its bound, with both records |
| `Weights.WeightsLastIff` | src/system_architecture.cpp:144-175 | from equal weights, the weights after any two signals are equal exactly when the signals last: a case split on capacities, gains and signals before them |
| `Weights.MirroredLasting` | src/system_architecture.cpp:144-175 | for open directions of the same capacity and geometry that is the same signal |
| `Symmetry.CouplingsEqualIff` | src/detail/spatial_adaptive_mesh_impl.hpp:394-414 | for any pair of equal weights, tilted or not, the couplings a step uses are equal exactly when its signals last |
| `Symmetry.MirroredLasts` | src/detail/spatial_adaptive_mesh_impl.hpp:394-414 | for an open pair of the same capacity and geometry: exactly when its ends judge each other alike |
| `Symmetry.SymmetryKeptIff` | docs/mathematics.md:20-21 | in any mesh of symmetric weights: a step keeps them symmetric exactly when the signals of every pair last, told before the step |
| `Symmetry.MirroredKeptIff` | docs/mathematics.md:20-21 | for bridges whose two directions have the same capacity and geometry: a step keeps them so exactly when the ends of every bridge agree |
| `Symmetry.AllBalancedIff` | docs/mathematics.md:30-36 | in any mesh of symmetric weights every pair exchanges without loss exactly when each is at peace: unconnected, with lasting signals, or with equal states, told before the step |
| `Symmetry.SignalsConserve` | docs/mathematics.md:30-36 | then the total is conserved |
| `Symmetry.ConservedIffAtPeace` | docs/mathematics.md:30-36 | in any mesh of symmetric weights with all other pairs at peace, the total is conserved exactly when the remaining pair is at peace |
| `Symmetry.ConnectSymmetricIff` | src/detail/spatial_adaptive_mesh_impl.hpp:245-255 | in any mesh of symmetric weights a connection keeps them symmetric exactly when its nodes are level or coincide |
| `Symmetry.ConnectMirroredIff` | src/detail/spatial_adaptive_mesh_impl.hpp:245-255 | and likewise the equal capacity and geometry of both directions |
| `Symmetry.EvenIsPassable` | src/system_architecture.cpp:109-113 | between such nodes new bridges carry at least half in both directions |
| `SymmetricRuns.StepsAreRun` | src/detail/spatial_adaptive_mesh_impl.hpp:811-934 | repeated steps are what a run of steps reaches |
| `SymmetricRuns.ConjectureHolds` | docs/mathematics.md:30-36 | the documented conjecture: weights symmetric after every step keep the total constant over any number of steps |
| `SymmetricRuns.SymmetryLastsIff` | docs/mathematics.md:20-21 | from any symmetric weights: they last over any number of steps exactly when the signals of every pair last before each |
| `SymmetricRuns.LastingConserves` | docs/mathematics.md:30-36 | and while they do the total is constant |
| `SymmetricRuns.MirrorLastsIff` | docs/mathematics.md:20-21 | directions of the same capacity and geometry stay so over any number of steps exactly when the ends of every bridge agree before each |
| `SymmetricRuns.MirroredConserves` | docs/mathematics.md:30-36 | and while they do the total is constant |
| `SymmetricRuns.QuietConserves` | docs/mathematics.md:20-36 | a condition on the states alone: within the noise margin of all baselines a mesh without tilt keeps its band, its symmetry and its total for every number of steps |
| `SymmetricRuns.QuietDecay` | src/detail/spatial_adaptive_mesh_impl.hpp:394-412 | meanwhile every bridge decays geometrically to 0.01 |
| `SymmetricRuns.QuietStaysHealthy` | src/detail/spatial_adaptive_mesh_impl.hpp:345-356 | and no node's health runs out |
| `Conservation.ExampleReached` | src/detail/spatial_adaptive_mesh_impl.hpp:616-809 | the example below is what a run of four operations reaches |
| `Conservation.SymmetryIsNotEnough` | docs/mathematics.md:20-36 | a reachable level pair with equal weights whose ends disagree on the signal, and whose next step does not conserve the total |
| `Conservation.UnshockedConserves` | docs/mathematics.md:30-36 | the same pair without the shock keeps its total for every number of steps |
| `Conservation.CouplingsDecide` | docs/mathematics.md:30-36 | whatever their weights, two nodes conserve their total exactly when the updated weights agree or the states do |
| `Conservation.PairConservesIff` | docs/mathematics.md:30-36 | with equal weights, tilted or not: exactly when they are unconnected, their signals last or they have the same state, told before the step |
| `Conservation.LevelPairConservesIff` | docs/mathematics.md:30-36 | without tilt: exactly when they are unconnected, agree on the signal or have the same state |
| `CommitRuns.CommitReachable` | src/detail/spatial_adaptive_mesh_impl.hpp:950-1091 | short of exhausted counters every live relationship of every system can be committed on, by four events of a thread that is not allocating: load, swap, derive and commit |
| `Examples.PlacesExist` | src/system_architecture.cpp:95-113 | there is a metric with the distances of all examples |
| `Examples.TiltCommitted` | src/detail/spatial_adaptive_mesh_impl.hpp:616-1091 | the tilted example is what a run of connecting and one constraining commit reaches |
| `Examples.AgreementIsNotEnough` | docs/mathematics.md:20-36 | there the weights are equal and both ends judge alike, and the next step makes the weights unequal and changes the total |
| `Transitions.SupportRestores` | src/detail/spatial_adaptive_mesh_impl.hpp:1059-1064 | k supporting commits rebuild a bridge without capacity; it is normal again exactly from the sixth on |
| `Transitions.ConstrainNeverIsolates` | src/detail/spatial_adaptive_mesh_impl.hpp:1055-1058 | constraining commits damp a bridge geometrically and never isolate it |
| `StepBuffers.StaleEntriesNeverShow` | src/detail/spatial_adaptive_mesh_impl.hpp:404-416 | from any stale buffer contents, computing and publishing a node gives its synchronous step, or throws exactly if some bridge does |
| `StepBuffers.PassIsStep` | src/detail/spatial_adaptive_mesh_impl.hpp:909-925 | publishing one pass over all nodes is the synchronous step; the pass throws exactly if some bridge does |
| `WorkerPool.SlicesPartition` | src/detail/spatial_adaptive_mesh_impl.hpp:460-461 | every node lies in the slice of exactly one worker, for every count |
| `WorkerPool.SliceBounds` | src/detail/spatial_adaptive_mesh_impl.hpp:460-461 | a slice begins at its share rounded down, and slices differ by at most one node |
| `WorkerPool.GenerationBarrier` | src/detail/spatial_adaptive_mesh_impl.hpp:420-497 | in every reachable pool all slots carry the current generation, at most one behind, the counter is the number behind, and buffers are held only while the step waits |
| `WorkerPool.CompletionAccepted` | src/detail/spatial_adaptive_mesh_impl.hpp:425-433 | the acknowledge guard never turns a genuine completion away |
| `WorkerPool.AtBarrier` | src/detail/spatial_adaptive_mesh_impl.hpp:885-899 | when the barrier opens every worker rests and has run this generation exactly once |
| `WorkerPool.BarrierRefinesSequential` | src/detail/spatial_adaptive_mesh_impl.hpp:437-476 | under every interleaving the buffers at the barrier are those of one sequential pass, and an error is recorded exactly when that pass throws |
| `WorkerPool.WorkDecreases` | src/detail/spatial_adaptive_mesh_impl.hpp:437-476 | every worker step leaves strictly less to do |
| `WorkerPool.SomeStep` | src/detail/spatial_adaptive_mesh_impl.hpp:884-889 | while a worker is behind some worker can step: the barrier opens after finitely many steps |
| `WorkerPool.Await` | src/detail/spatial_adaptive_mesh_impl.hpp:884-889 | waiting ends at an open barrier of the same dispatch, with buffers of the right shape even after an error |
| `Runs.RunAll` | src/detail/spatial_adaptive_mesh_impl.hpp:616-1091 | the invariant of mesh, ledger and history holds after every run of operations |
| `Runs.ReachableInv` | src/detail/spatial_adaptive_mesh_impl.hpp:509-564 | both indexes agree and all numbers are unique in every reachable mesh |
| `Runs.OneDirectionSuffices` | src/detail/spatial_adaptive_mesh_impl.hpp:639-647 | forward bridge, backward bridge and both records exist together or not at all |
| `Runs.MaximumPrinciple` | docs/mathematics.md:23-28 | over any run with k shocks every state stays in the initial band widened by 3.5 per shock |
| `Runs.StatesStayInBand` | docs/mathematics.md:23-28 | after any run from an empty mesh states lie in the band of the baselines widened by 3.5 per shock |
| `Runs.CommitsAreLinear` | src/detail/spatial_adaptive_mesh_impl.hpp:1083-1090 | over any run no capability commits twice, no version is committed from twice, and each commit's version is later than all before |
| `Runs.SecondNeverCommits` | src/detail/spatial_adaptive_mesh_impl.hpp:1012-1021 | once a version has been committed from, no capability bound to it ever commits |
| `Runs.PrunedNeverCommits` | src/detail/spatial_adaptive_mesh_impl.hpp:1004-1010 | a capability whose relationship was pruned never commits, even after reconnection |
| `Runs.CommitsIff` | src/detail/spatial_adaptive_mesh_impl.hpp:963-1091 | when exactly a known capability commits |
| `Runs.CommitFindsBridge` | src/detail/spatial_adaptive_mesh_impl.hpp:1037-1048 | the search for the bridge of an accepted commit succeeds |
| `Runs.CommitMoves` | src/detail/spatial_adaptive_mesh_impl.hpp:1083-1090 | a commit consumes its capability and moves its edge from the bound version to a new one |
| `Runs.RefusalChangesNothing` | src/detail/spatial_adaptive_mesh_impl.hpp:969-1081 | a refused commit leaves the mesh alone and spends at most the capability tried |
| `Runs.IssuingRegisters` | src/detail/production_authority_internal.hpp:273-293 | in every reachable system, under any use of the shared allocator, a derivation that issues registers: its token is new to the ledger |
| `Runs.AttemptSpends` | src/detail/spatial_adaptive_mesh_impl.hpp:992-1081 | an attempt consumes an issued capability if it commits and invalidates it if not |
| `Refusals.AnswerIs` | src/detail/spatial_adaptive_mesh_impl.hpp:963-1091 | each of the six answers of a commit exactly when it is given, in terms of the capability, its record and its relationship before the call |
| `Refusals.TerminalStays` | src/detail/production_authority_internal.hpp:343-356 | a record that is no longer issued never changes, over any run |
| `Refusals.CommittedIsConsumed` | src/detail/spatial_adaptive_mesh_impl.hpp:982-984 | after any further operations a capability that has committed is answered as consumed |
| `Refusals.AttemptSettles` | src/detail/spatial_adaptive_mesh_impl.hpp:982-1091 | one attempt settles all later answers: consumed if it committed, invalid if not |
| `Refusals.PrunedIsStale` | src/detail/spatial_adaptive_mesh_impl.hpp:1004-1010 | a capability whose relationship was pruned is answered as stale as long as it is issued, after any further operations |
| `Authority.IssuanceMeans` | src/detail/production_authority_internal.hpp:393-466 | exactly when a capability is issued, in terms of what the three readings saw |
| `Refusals.DenialIs` | src/system_architecture.cpp:12-81 | each of the seven reasons for denying a derivation exactly when it is given, in terms of what the three readings saw |
| `Authority.DerivationNeverCollides` | src/detail/production_authority_internal.hpp:281-292 | a token returned later is never one the ledger holds |
| `Authority.AuthorityLedger.RegisterIssued` | src/detail/production_authority_internal.hpp:273-293 | registers exactly capabilities of the own domain with a new identity |
| `Authority.AuthorityLedger.TransitionFromIssued` | src/detail/production_authority_internal.hpp:343-356 | leaves the issued state at most once |
| `Authority.AuthorityLedger.Derive` | src/detail/production_authority_internal.hpp:379-471 | the result follows the readings; the ledger gains exactly what was issued, unless the token were already known |
| `Revalidation.QuietKeeps` | src/detail/spatial_adaptive_mesh_impl.hpp:232-327 | an operation that does not move an edge leaves its record alone, but for the state of its gate |
| `Revalidation.NoAba` | src/detail/spatial_adaptive_mesh_impl.hpp:146-164 | a snapshot revalidates exactly when no pruning, commit or identity-renewing change of the gate hit its edge and the gate is back in the captured state; with every failed renewal allowed |
| `Revalidation.NoAbaWithoutFaults` | src/detail/spatial_adaptive_mesh_impl.hpp:146-164 | while no renewal fails: exactly when no pruning, commit or change of the gate hit its edge |
| `Revalidation.FailedRenewalsHideChanges` | src/detail/production_transition_evaluation_internal.hpp:665-671 | two observations whose renewals fail make a snapshot stale and then valid again |
| `Examples.RenewalsFailAtReached` | src/detail/production_transition_evaluation_internal.hpp:665-671 | and that at a system a run of operations reaches |
| `Revalidation.EligibleSawOneLifecycle` | src/detail/production_transition_evaluation_internal.hpp:998-1113 | an evaluation interleaved with any operations ends eligible exactly when all validators were satisfied, one lifecycle was seen unmoved throughout, and its gate was as captured |
| `Revalidation.NothingRequestedMeans` | src/detail/production_transition_evaluation_internal.hpp:1001-1033 | when exactly an evaluation finds nothing requested |
| `Persistence.BridgePersistence.Observe` | include/bridge_persistence.hpp:47-86 | one observation takes the gate to the specified state, whose thresholds GateThresholds fixes, and keeps the counter below its limit |
| `Persistence.BridgePersistence.AdvancePending` | include/bridge_persistence.hpp:133-143 | what the pending direction and counter become |
| `Persistence.BridgePersistence.Reset` | include/bridge_persistence.hpp:88-92 | back to the initial state |
| `Persistence.BridgePersistence.Make` | include/bridge_persistence.hpp:30-45 | accepted exactly for thresholds 0 <= R < A <= 1 and at least two samples each |
| `Persistence.BridgePersistence.Evolve` | src/detail/production_transition_evaluation_internal.hpp:651-657 | tells exactly whether any part of the state changed |
| `ProductionPersistence.ProductionPersistenceRecord.constructor` | src/detail/production_transition_evaluation_internal.hpp:620-633 | a fresh gate with the production thresholds under a new identity |
| `ProductionPersistence.ProductionPersistenceRecord.Evolve` | src/detail/production_transition_evaluation_internal.hpp:665-671 | the gate moves first; a change renews the identity, or throws and leaves the new state under the old one |
| `Persistence.StepSettled` | include/bridge_persistence.hpp:61-66 | between calls the counter is below its limit |
| `Persistence.ChangesPassThroughPreserve` | include/bridge_persistence.hpp:47-86 | a change of recommendation goes to or from preserve |
| `Persistence.HistorySemantics` | include/bridge_persistence.hpp:47-86 | after any observations the state is the one given by the longest agreeing suffix since the last decisive moment |
| `GateThresholds.ActivatesExactly` | include/bridge_persistence.hpp:52-70 | from rest at preserve, which value of any sequence is the first to turn the gate, and which way: exactly the one that completes enough values at or above A, or at or below -A; until then the counter counts them |
| `GateThresholds.SupportReleasesExactly` | include/bridge_persistence.hpp:72-85 | from rest at support: exactly the value that completes enough values at or below R |
| `GateThresholds.ConstrainReleasesExactly` | include/bridge_persistence.hpp:72-85 | from rest at constrain: exactly the value that completes enough values at or above -R |
| `GateThresholds.OthersClear` | include/bridge_persistence.hpp:52-55 | any other value clears the pending count |
| `GateThresholds.TurnedIsAtRest` | include/bridge_persistence.hpp:61-85 | a gate that has turned is at rest, so the statements above follow each other through any run |
| `GateThresholds.ProductionGate` | src/detail/production_transition_evaluation_internal.hpp:620-633 | the gate of a relationship takes two values, at 0.5 to act and at 0.25 to let go |
| `Persistence.ResetSemantics` | include/bridge_persistence.hpp:88-92 | with resets in the run only what follows the last one counts |
| `Persistence.SwitchingBound` | include/bridge_persistence.hpp:47-86 | k changes consume at least ceil(k/2) activations and floor(k/2) releases of observations, and pending samples on top |
| `Persistence.BoundIsTight` | include/bridge_persistence.hpp:47-86 | for every k some evidence meets the bound |
| `Persistence.MirrorEvents` | include/bridge_persistence.hpp:47-92 | negating all evidence mirrors the run, resets included |
| `Persistence.EvidenceMeans` | include/adaptive_bridge_policy.hpp:29-37 | evidence is linear in compatibility, from against to for, in units of the confidence |
| `Persistence.ComplementMirrors` | include/adaptive_bridge_policy.hpp:29-37 | so does complementing every compatibility |
| `Tokens.TokensAreConsecutive` | src/detail/production_authority_internal.hpp:21-40 | under every interleaving the tokens returned are 1, 2, ... in order, never 0 or the largest value |
| `Tokens.TokensAreUnique` | src/detail/production_authority_internal.hpp:21-40 | no token is returned twice |
| `Tokens.LaterTokensAreNew` | src/detail/production_authority_internal.hpp:21-40 | whatever is returned later was never returned before |
| `Tokens.ThrowMeansExhausted` | src/detail/production_authority_internal.hpp:27-30 | a throw means that no token will ever be returned again |
| `Tokens.AtomicCounter.NextMonotonicToken` | src/detail/production_authority_internal.hpp:21-40 | one call, under any finite interference, is a run of the machine and ends with a token or with exhaustion |
| `Lease.LeaseConservation` | src/detail/production_transition_evaluation_internal.hpp:486-554 | the active count is the number of live leases under every interleaving; the guard against zero is never needed |
| `Lease.MoveHandsOver` | src/detail/production_transition_evaluation_internal.hpp:492-505 | a move hands over what the source holds and leaves it empty; the count and all other leases stay |
| `Lease.AcceptanceStaysWithdrawn` | src/detail/production_transition_evaluation_internal.hpp:571-580 | acceptance never returns and the active count only falls |
| `Lease.DrainSafety` | src/detail/production_transition_evaluation_internal.hpp:571-580 | after a completed drain no lease is live and the backend is never called again |
| `Lease.DrainProgress` | src/detail/production_transition_evaluation_internal.hpp:575-578 | a waiting drain can finish, or some release brings it nearer |
| `Lease.BindingState.AcquireEvaluationLease` | src/detail/production_transition_evaluation_internal.hpp:546-554 | granted exactly while accepting; counts the lease |
| `Lease.BindingState.ReleaseLease` | src/detail/production_transition_evaluation_internal.hpp:525-538 | gives one lease back |
| `Lease.BindingState.BeginInvalidate` | src/detail/production_transition_evaluation_internal.hpp:571-575 | withdraws acceptance |
| `Lease.BindingState.EndDrain` | src/detail/production_transition_evaluation_internal.hpp:576-580 | completes only with no live lease |
| `K9Interchange.SplitFields` | experiments/kiko/k9_interchange.cpp:87-116 | splits exactly the bodies with four tabs, into the fields whose join they are |
| `K9Interchange.SplitJoins` | experiments/kiko/k9_interchange.cpp:87-116 | joining the split fields restores the body |
| `K9Interchange.JoinSplits` | experiments/kiko/k9_interchange.cpp:87-116 | splitting joined tab-free fields gives them back |
| `K9Interchange.ValidCorrelation` | experiments/kiko/k9_interchange.cpp:71-85 | accepts exactly 1 to 128 allowed characters |
| `K9Interchange.Validate` | experiments/kiko/k9_interchange.cpp:139-206 | the scan decides as the record specification does, with the same precedence of errors |
| `K9Interchange.AcceptedIffCanonical` | experiments/kiko/k9_interchange.cpp:139-206 | accepted with an observation exactly when the record is its canonical encoding and the kind is expected |
| `K9Interchange.EncodeAccepted` | experiments/kiko/k9_interchange.cpp:139-206 | an encoded observation is accepted as itself |
| `K9Interchange.EncodeInjective` | experiments/kiko/k9_interchange.cpp:139-206 | no two observations share an encoding |
| `K9Interchange.FramingDecides` | experiments/kiko/k9_interchange.cpp:148-176 | five clean fields on one line are judged by the fields alone |
| `K9Interchange.RejectionIs` | experiments/kiko/k9_interchange.cpp:139-206 | each of the six errors, and acceptance, exactly when it is given, in the text of the fields |
| `K9Interchange.CorrelationIs` | experiments/kiko/k9_interchange.cpp:58-85 | a correlation is 1 to 128 of 66 characters, by their codes |
| `K9Interchange.EncodingIs` | experiments/kiko/k9_interchange.cpp:139-206 | the canonical text of every observation |
| `K9Interchange.UnframedIsMalformed` | experiments/kiko/k9_interchange.cpp:148-169 | everything else is malformed |

## Left out

- Counters for incarnations, generations and lineages are natural numbers and do not wrap; only the two guards that exist, at commit and in the token allocator, see the 64-bit limit.
- Floating point: states, capacities and positions are real numbers. A value that the program finds non-finite is a fault supplied by the caller, per bridge, per node or per pair of positions.
- Euclidean distance is a parameter with the four properties the code relies on: not negative, symmetric, at least the difference in height, and finite symmetrically.
- Memory and thread faults are supplied by the caller, one site each. The scratch sets and maps of validation, batch checks, collection and pruning are allocated before anything is touched, and the ledger's own entry before anything is registered; their faults are not modelled. Vector capacities are not modelled: reserving is one fault site, and the four parallel result vectors are one sequence of records that fault together.
- A safety bound that is not positive: every node is made with the constant 10, so the refusal of another one is kept only in the validator; a shock to such a node is specified as doing nothing.
- The overflow of a worker index times a node count in machine words.
- Worker mechanics: timed waits, notifications, thread start and the shutdown of the pool. A worker reads the lists of nodes, which no one writes while it runs; its work on one node is one step.
- Locks: mesh operations hold the topology lock and are single steps; the readings of an evaluation are separate steps between them. A commit's two locks are one.
- MeshRuntime.SpatialAdaptiveMesh.ConnectPairsUnlocked: the order in which vectors are reserved, which is that of a hash map, is not captured.
- Authority.AuthorityLedger.Derive: the backend's validators and its derivation of a direction, which are stubs that always fail, are arbitrary answers here; otherwise nothing is ever issued.
- Revalidation.EligibleSawOneLifecycle: the final evaluator of prerequisites is the conjunction it amounts to, and the evidence objects passed to it are not modelled.
- Moving a lease is an action of the lease machine; there is no class for the movable handle, whose ownership rules are those of the compiler.
- The lineage of a gate is an address in the program; here it is a number that is never given twice.
- Observations and resets of a live relationship's gate are operations of the run machine; the mesh object itself never performs them. In the sources no operation resets a live record and renews its identity: that is done only by tests/support/production_transition_evaluator_live_scenarios.cpp:107-116.
- Construction access, friends and other access control; the read-only accessors; phase profiling, benchmarks, demo and build files; the shadow controller, bridge permissions and the evaluator of eligibility alone.
