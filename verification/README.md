# Verified model of the RDMA validation pipeline

This project models how rhaii-cluster-validation decides which GPUs, NICs and nodes to test together, how
it runs these tests, and how it turns their output into verdicts:

1. **Tournament.** Node pairs are laid out in rounds by the circle method, an array rotated in place
   (`Schedule.dfy`). `RunPairwise` runs each round with one goroutine per pair and retries each job
   (`Pairwise.dfy`), under names that tell all Jobs apart (`JobNames.dfy`). The protocol is a state machine:
   every interleaving of the goroutines, every answer of the cluster and every moment of cancellation is a
   sequence of actions, and the theorems hold in every state that any such sequence reaches. `Retries.dfy`
   tells what is published and left behind by the answers of the cluster alone.
2. **GPU-NIC pairing.** The bandwidth-greedy assignment (`BandwidthPairing.dfy`, `LeftoverPairing.dfy`) and
   the four topology strategies with their dispatcher (`PcieMatching.dfy`, `NicSharing.dfy`,
   `FallbackOrder.dfy`, `MultiNic.dfy`, `BuildPairs.dfy`) share the theory of greedy assignment under a NIC
   capacity (`Matching.dfy`), of handing NICs out in turn (`Dealing.dfy`) and of phase 1 over NUMA groups
   (`NumaGroups.dfy`). Go iterates maps in arbitrary order; here each loop over a map takes an arbitrary
   remaining key, and that the results do not depend on it is a theorem. What the returned pairs are in terms
   of hops, ranks and measurements is in `Nearest.dfy`, `Turns.dfy` and `BandwidthResult.dfy`.
3. **EFA bandwidth jobs.** Lanes per GPU and for the whole endpoint (`EfaLanes.dfy`, `EfaAgreement.dfy`), the
   same told by the stored topologies (`EfaJobs.dfy`), the framing of the client output and its parser on the
   level of strings (`Text.dfy`, `EfaOutput.dfy`), and a job from its two scripts to its verdict
   (`EfaRun.dfy`). `EfaReadiness.dfy` says which pairings the expansion accepts.
4. **Pingmesh.** Job map, script indices and timeouts (`PingMesh.dfy`), rails (`Rails.dfy`, `RailMesh.dfy`),
   the classification of the results (`Classify.dfy`, `Connectivity.dfy`, `Attempts.dfy`), and all of it from
   the list of nodes to the rows of the report (`MeshReport.dfy`).
5. **CRD versions.** Semantic and API version orders and the best served version (`Versions.dfy`), the first
   against Semantic Versioning 2.0.0 (`Precedence.dfy`), the second against its documented order
   (`ApiOrder.dfy`), the last on lists with empty names (`EmptyNames.dfy`).

`Cluster.dfy` holds the shared records, `Ordering.dfy` Go's string order and the contract of `sort.Slice`,
`PairOrder.dfy` lists of pairs in GPU order, `Pcie.dfy` distances in the PCIe tree, `Topology.dfy` candidate
lists and NUMA groups.

Loops and updates in place are methods with invariants; each is tied to a specification function or
predicate, and what the source promises is proved about that specification. Where a method leaves a choice
open (the order of a map, the order of equal elements), it returns a ghost witness of the choice that was
made, and the theorems hold for all choices. The orders, constants and case distinctions that a
specification shares with its method are stated once more on the results, by numbers and names of the input.

## Assumptions

- GPU IDs and NIC device names are unique within a node; node names are distinct and not empty. Where a
  result holds without that, the member does not assume it.
- Bandwidths are non-negative reals.
- `sort.Slice` is any method that returns an ordered permutation; nothing depends on how ties fall.
- A job attempt ends in an error or a result, as the cluster pleases. Measurements in a log are an arbitrary
  function of the log.
- Integers are unbounded, except where text is converted: `Atoi` saturates at 64 bits as in Go.

## Where the code differs from what it says or suggests

- `BandwidthOptimalPairing` "maximizes total bandwidth": phase 1 reaches at least half of the optimum, and all
  of it if every GPU has a strictly best NIC of its own. `GreedyIsNotAlwaysOptimal` and `FactorTwoIsTight` show
  that no factor below 2 would do.
- The bandwidth that phase 2 looks up for a GPU in its round-robin branch is always 0 (`LeftoversShareWell`).
- `multiNICPCIePairing` starts its search at distance 50 with the first GPU. `NearestExactly` says exactly when
  the NIC gets its nearest GPU and its true distance; `FarGpuIsReportedNearer` shows a distance of 60 reported
  as 50. `MultiNicOrderExactly` says when the order of the GPUs matters, as in `FirstGpuMatters`.
- The fallback of the two NUMA strategies deals NICs to the GPUs without local NIC in input order.
  `SharingOrderExactly` says when another order gives the same pairs; `InputOrderMatters` swaps two GPUs.
- The client script's comment says that both scripts filter device names in the same way; the server counts all
  client devices. `PortsAgreeExactly` says when ports agree nevertheless; `NewPingMeshJob` makes sure that it
  does not matter.
- The rail of a NIC is its last position in the topology. If GPUs share NICs, a full mesh may have fewer rail
  pairs than min(n, m), and so it may where invalid device names are left out: `RailsAreMinimumExactly`,
  `SharedNicsMayMissRails` and `InvalidNamesMayLoseRails`.
- `RunPairwise` never runs a job whose key has the larger name first, and says nothing about it
  (`CompletedRunCoversJobs`); `runPingMesh` produces no such key.
- `compareSemver` compares pre-release tags as text. `FollowsSection11Exactly` says, for all versions with
  64-bit numbers, when that is the precedence of section 11.4 of Semantic Versioning 2.0.0; rc.10 against rc.9,
  rc-1 against rc.1 and -a against 1 come out the other way round.
- `compareSemver` knows no build metadata. `MetadataIsIgnoredExactly` says when metadata is ignored all the
  same; it may hide the patch number, add a number, turn a release into a pre-release or change the tag.
- The search for the best served version starts over after an empty name that ranks above the best so far.
  `ScanIsMaximalExactly` says for all lists when the choice is maximal. The API server does not admit empty
  version names.

## Model

| member | source | states |
|---|---|---|
| Schedule.RoundRobinSchedule | pkg/jobrunner/runner.go:218-256 | The in-place rotation computes the closed-form schedule, in which seat s of round r is known without rotating |
| Schedule.Rotate | pkg/jobrunner/runner.go:250-253 | One rotation keeps seat 0 and moves every other occupant up one seat, losing nobody |
| Schedule.PairUp | pkg/jobrunner/runner.go:234-249 | The inner loop yields the tables of this round, without the bye |
| Schedule.RotatedSeating | pkg/jobrunner/runner.go:250-253 | Rotating the seating of round r gives the seating of round r + 1 |
| Schedule.MeetOnlyOnce | pkg/jobrunner/runner.go:230-254 | Two seats face each other in one round only, which is computed by inverting 2 modulo the odd m - 1 |
| Schedule.SeatsFace | pkg/jobrunner/runner.go:235-237 | In the meeting round the two seats do face each other, for seat 0 and for any two rotating seats |
| Schedule.EachPairExactlyOnce | pkg/jobrunner/runner.go:216-256 | For all n: a pair is played once if it is (smaller name, larger name) of two nodes, and never otherwise |
| Schedule.ScheduleDisjoint | pkg/jobrunner/runner.go:216-256 | No node is in two pairs of one round |
| Schedule.ScheduleShape | pkg/jobrunner/runner.go:216-256 | m - 1 rounds of floor(n/2) pairs, m being n rounded up to even |
| Pairwise.Start | pkg/jobrunner/runner.go:97-113 | The prologue finds exactly the names in the keys, sorted, for any order of the map |
| Pairwise.CollectNames | pkg/jobrunner/runner.go:101-110 | The names are exactly those in the keys, each once, for any order of the map |
| Pairwise.RunInv | pkg/jobrunner/runner.go:97-214 | The protocol invariant holds in every state of every interleaving |
| Pairwise.LocalKeepsWorker | pkg/jobrunner/runner.go:150-186 | Each step of a goroutine keeps the tie between its attempt number, its created Jobs and its published results |
| Pairwise.RunningPairsDisjoint | pkg/jobrunner/runner.go:123-189 | Two pairs that run at the same time share no node |
| Pairwise.OnlyCurrentAttemptIsLive | pkg/jobrunner/runner.go:282-288 | Without debug, all Jobs of earlier attempts were sent for deletion before the next attempt creates any |
| Pairwise.OneLiveJobPerNode | pkg/jobrunner/runner.go:282-352 | Without debug, no node ever hosts two live Jobs |
| Pairwise.NameIsFree | pkg/jobrunner/runner.go:154-156 | The role, node, round and attempt of a Job to be created are those of no live Job, even in debug mode |
| Retries.ResultsComeFromBothJobs | pkg/jobrunner/runner.go:302-403 | A result arrives only while the server Job and the client Job of that attempt are live on the pair's two nodes, the attempt being numbered by the answers so far |
| JobNames.FullNameInjective | pkg/jobrunner/helpers.go:77-80 | Role, node, round and attempt can be read off the text of the name, whatever the node is called |
| JobNames.KubernetesNameInjective | pkg/jobrunner/helpers.go:77-90 | Up to 63 characters, where hashing starts, different Jobs of one type have different names |
| JobNames.NameFits | pkg/jobrunner/helpers.go:77-90 | Every name has at most 63 characters and ends in no dash or dot |
| JobNames.NameExample | pkg/jobrunner/helpers.go:77-80 | The text of a name, for example pingmesh-client-node-a-r3a2 |
| JobNames.KubernetesNameIsFree | pkg/jobrunner/helpers.go:77-90 | In every reachable state the name of the Job to be created differs from that of every live Job |
| Pairwise.ResultsAreOwnAttempts | pkg/jobrunner/runner.go:150-186 | results[p] is what p's own attempts returned, in order, at most maxAttempts, and only the last of them may have passed |
| Retries.ResultsAreTheAnswers | pkg/jobrunner/runner.go:150-186 | In every reachable state, for a pair that has stopped: its results are the cluster's answers to its attempts, an error counting as one FAIL; none before the last is PASS; and without cancellation there are maxAttempts of them or the last is PASS |
| Retries.RunningResultsAreAnswers | pkg/jobrunner/runner.go:150-186 | While a pair runs, its results are all but at most one of the answers so far, and none of them is PASS |
| Retries.StoppedEarlyMeansPassed | pkg/jobrunner/runner.go:176-185 | Every attempt before the last was an error or had a result other than PASS; a goroutine that stopped uncancelled before maxAttempts has a last attempt whose results are all PASS |
| Retries.CancelStopsRetries | pkg/jobrunner/runner.go:150-153 | After a cancellation no pair begins another attempt, however long the run goes on |
| Retries.NothingIsLeftBehind | pkg/jobrunner/runner.go:282-288 | Without debug, a completed run has sent every Job it created for deletion |
| Retries.DebugKeepsJobs | pkg/jobrunner/runner.go:282-288 | In debug mode no action deletes a Job |
| Retries.ClientsHaveServers | pkg/jobrunner/runner.go:302-352 | Without debug, a client Job lives only on its pair's client node, in its pair's round, beside the server Job of the same attempt on the server node |
| Pairwise.CompletedRunCoversJobs | pkg/jobrunner/runner.go:123-213 | A completed run has started exactly the canonically keyed jobs, each once, and all have stopped |
| Pairwise.StepDecreases | pkg/jobrunner/runner.go:123-189 | Every action uses up part of a finite budget |
| Pairwise.RunsAreBounded | pkg/jobrunner/runner.go:97-214 | No interleaving is longer than schedule and attempts allow |
| Pairwise.RunsNeverStick | pkg/jobrunner/runner.go:97-214 | As long as rounds are left some action is possible: wg.Wait never waits for a goroutine that cannot move |
| Pairwise.EveryRunCompletes | pkg/jobrunner/runner.go:97-214 | Every run extends to one that has walked all rounds, without cancelling it |
| Pairwise.CompletedRunHasResults | pkg/jobrunner/runner.go:120-213 | After a completed run that was not cancelled the result map has an entry for exactly the canonically keyed jobs |
| PingMesh.FilterValidDeviceNames | pkg/checks/rdma/pingmesh_job.go:131-139 | Keeps exactly the valid names, in order |
| PingMesh.ValidInOrder | pkg/checks/rdma/pingmesh_job.go:131-139 | The filter treats each name by itself and keeps the order |
| PingMesh.ValidDeviceExamples | pkg/checks/check.go:14-16 | mlx5_0 and rdmap0s0 are valid; the empty name, a leading dash or underscore, a blank and a dot are not |
| PingMesh.NewPingMeshJob | pkg/checks/rdma/pingmesh_job.go:39-56 | The job holds the valid devices of both ends and a positive timeout, 10 by default |
| PingMesh.JobForNodes | pkg/controller/pingmesh.go:59-117 | A pair gets a job exactly if both ends have topology and valid devices and, for SRD, the server has EFA devices; swapping names swaps devices |
| PingMesh.BuildJobMap | pkg/controller/pingmesh.go:56-121 | The double loop makes exactly one entry per testable pair, under its canonical key |
| PingMesh.KeysAreCanonical | pkg/controller/pingmesh.go:78-85 | Every key has the smaller name as server |
| PingMesh.EveryJobRuns | pkg/controller/pingmesh.go:55-130 | A completed run of RunPairwise on this map has run every pingmesh job, each once |
| MeshReport.ToTestExactly | pkg/controller/pingmesh.go:59-117 | A pair of nodes is tested if and only if its key has the smaller name first, both nodes have a stored pair with a valid device name and, for SRD, the server has EFA devices |
| MeshReport.JobIs | pkg/checks/rdma/pingmesh_job.go:39-56 | The job of a pair holds the valid devices of either node on that node's side, each once, the configured timeout or 10 seconds, and the server's EFA count for SRD only |
| MeshReport.ResultsForEveryPair | pkg/controller/pingmesh.go:55-130 | After such a run that was not cancelled exactly the testable pairs of nodes have results |
| MeshReport.OneRowPerPair | pkg/controller/pingmesh.go:55-136 | The report on it has exactly one row per testable pair of nodes, under their two names |
| MeshReport.CanFinish | pkg/controller/pingmesh.go:129-130 | Every run on the job map can be brought to that point |
| PingMesh.ServerScript | pkg/checks/rdma/pingmesh_job.go:231-243 | The server loop starts one listener per valid server device and client slot, numbered row by row |
| PingMesh.ClientScript | pkg/checks/rdma/pingmesh_job.go:281-313 | The client loop makes one test per pair of valid devices, numbered row by row |
| PingMesh.ClientRows | pkg/checks/rdma/pingmesh_job.go:359-377 | JSON row idx reports the devices, the exit code and the output file of test idx |
| PingMesh.ListenersNumbered | pkg/checks/rdma/pingmesh_job.go:232-242 | Listener k has port 18515 + k: no two listeners share a port |
| PingMesh.TestsNumbered | pkg/checks/rdma/pingmesh_job.go:281-313 | Test k has port 18515 + k and output file k |
| PingMesh.PortsAgreeExactly | pkg/checks/rdma/pingmesh_job.go:231-313 | Every test reaches a listener on the device it reports if and only if invalid client names make no difference |
| PingMesh.JobPortsAgree | pkg/checks/rdma/pingmesh_job.go:39-56 | For jobs made by NewPingMeshJob the ports of both scripts always agree |
| PingMesh.MeshIsComplete | pkg/checks/rdma/pingmesh_job.go:281-313 | Each valid client device probes each valid server device in exactly one test |
| PingMesh.MeshSize | pkg/checks/rdma/pingmesh_job.go:152-155 | There are as many tests as pairs of valid devices |
| PingMesh.ServerOutlivesClient | pkg/checks/rdma/pingmesh_job.go:152-155 | serverTimeout covers the start delay and all tests of the sequential client |
| MeshReport.TimeoutCoversTests | pkg/checks/rdma/pingmesh_job.go:152-155 | For a job of the job map the server's timeout is the number of tests times their timeout plus 30 seconds |
| Rails.DevicesFromTopology | pkg/checks/rdma/pingmesh_classify.go:13-23 | The loop lists the devices at their first occurrence |
| Rails.UniqueDevsDistinct | pkg/checks/rdma/pingmesh_classify.go:12-23 | Every device of the topology is listed exactly once |
| Rails.ListedByFirstOccurrence | pkg/checks/rdma/pingmesh_classify.go:12-23 | Devices are listed in the order of their first occurrences |
| Rails.BuildRailMap | pkg/checks/rdma/pingmesh_classify.go:26-35 | The loop builds the rail map |
| Rails.RailMapIsLastOccurrence | pkg/checks/rdma/pingmesh_classify.go:25-35 | The rail of a device is its last position, so different devices are on different rails |
| Rails.DistinctNicsRails | pkg/checks/rdma/pingmesh_classify.go:25-35 | If every NIC is paired once, the rails are 0, 1, 2, ... without gaps |
| RailMesh.TestedRailsSize | pkg/checks/rdma/pingmesh_classify.go:25-35 | Any of a node's devices are on as many rails |
| RailMesh.MeshCounts | pkg/checks/rdma/pingmesh_classify.go:118-135 | A mesh of some devices of both sides has n * m NIC pairs, and one rail pair per rail tested on both sides |
| RailMesh.RailsAreMinimumExactly | pkg/checks/rdma/pingmesh_classify.go:118-135 | The rail pairs are min(n, m) if and only if the tested rails of one node are all tested rails of the other |
| RailMesh.DistinctNicsMinimum | pkg/checks/rdma/pingmesh_classify.go:13-135 | With distinct paired NICs: n * m pairs, min(n, m) of them rail |
| RailMesh.SharedNicsMayMissRails | pkg/checks/rdma/pingmesh_classify.go:25-135 | Two devices on each side, shared by GPUs: four NIC pairs, one of them rail |
| RailMesh.InvalidNamesMayLoseRails | pkg/checks/rdma/pingmesh_job.go:47-48 | Distinct NICs, one with an invalid name on each side: one NIC pair is tested and none is rail |
| RailMesh.RowsAreTheMesh | pkg/checks/rdma/pingmesh_job.go:359-377 | The rows reported by a pingmesh job, whatever the exit codes, are the full mesh of the valid devices |
| RailMesh.JobCounts | pkg/checks/rdma/pingmesh_classify.go:78-169 | Over all attempts of a testable pair of nodes: n * m NIC pairs in its row, and exactly when min(n, m) of them are rail |
| RailMesh.JobCountsOfDistinctNics | pkg/checks/rdma/pingmesh_classify.go:78-169 | With valid names and every NIC paired once: n * m NIC pairs, min(n, m) of them rail |
| Classify.Merge | pkg/checks/rdma/pingmesh_classify.go:90-114 | Over all attempts a NIC pair passed if and only if some attempt passed it; the last failing attempt and its error are kept |
| Classify.RecordKeeps | pkg/checks/rdma/pingmesh_classify.go:101-113 | One more result keeps the three maps in step with all results so far |
| Classify.CountPair | pkg/checks/rdma/pingmesh_classify.go:116-157 | For any order of the map: the counts are the sizes of the sets of rail, cross-rail and passed NIC pairs, the failures one entry per never-passed pair |
| Classify.ClassifyPingMeshResults | pkg/checks/rdma/pingmesh_classify.go:65-194 | One row per classifiable node pair, summaries are the sums over rows, and one failure per never-passed NIC pair with its last failing attempt and error |
| Attempts.TestedExactly | pkg/checks/rdma/pingmesh_classify.go:90-105 | A NIC pair counts as tested, and as passed, if and only if some attempt reported it, and reported it as passed |
| Attempts.LastFailureIs | pkg/checks/rdma/pingmesh_classify.go:101-113 | The recorded attempt, counted from 1, and error are those of the last failing result, in the order of attempts and of results within an attempt |
| Attempts.RailExactly | pkg/checks/rdma/pingmesh_classify.go:118-135 | A NIC pair is a rail pair if and only if some position is the last one of the client's device on the client and of the server's on the server |
| Attempts.FailureMeans | pkg/checks/rdma/pingmesh_classify.go:136-157 | An entry of the failure list: no attempt reported the NIC pair as passed, and attempt and error are those of the last result about it |
| Attempts.FailuresAreComplete | pkg/checks/rdma/pingmesh_classify.go:136-157 | Every NIC pair that was reported and never as passed has exactly one entry |
| Classify.RowConserves | pkg/checks/rdma/pingmesh_classify.go:163-169 | In every row rail + xrail = all, for passed and for total |
| Classify.SummaryConserves | pkg/checks/rdma/pingmesh_classify.go:172-188 | The two summaries split the NIC pairs of the whole matrix between them |
| Classify.SummariesAreOrderFree | pkg/checks/rdma/pingmesh_classify.go:78-188 | The summaries are the same for every iteration order of the result map |
| Connectivity.SummaryMeans | pkg/checks/rdma/pingmesh_classify.go:37-49 | PASS, FAIL, WARN and SKIP of a summary if and only if all, none, some, or no tested NIC pairs of that category passed in some attempt |
| Connectivity.SummaryCounts | pkg/checks/rdma/pingmesh_classify.go:172-188 | Each summary counts every combination of a node pair and a NIC pair of its category once, and those of them that passed in some attempt |
| BandwidthPairing.PhaseOne | pkg/checks/rdma/gpu_nic_lpbk_bw.go:207-226 | The loop with its early exit gives the full greedy matching: stopping at min(#GPUs, #NICs) changes nothing |
| BandwidthPairing.HalfOptimal | pkg/checks/rdma/gpu_nic_lpbk_bw.go:207-226 | Charging argument: from any intermediate choice, greedy ends with at least half of what any 1:1 assignment of the remaining candidates adds |
| BandwidthPairing.GreedyIsOneToOne | pkg/checks/rdma/gpu_nic_lpbk_bw.go:207-226 | Phase 1 is itself a 1:1 assignment of measured pairs |
| BandwidthPairing.GreedyIsHalfOptimal | pkg/checks/rdma/gpu_nic_lpbk_bw.go:154-226 | No 1:1 assignment of measured pairs has more than twice the bandwidth of phase 1 |
| BandwidthPairing.GreedyIsOptimalForOwnBestNics | pkg/checks/rdma/gpu_nic_lpbk_bw.go:154-159 | If every GPU has a strictly best NIC and no two share it, phase 1 is optimal |
| BandwidthPairing.GreedyIsNotAlwaysOptimal | pkg/checks/rdma/gpu_nic_lpbk_bw.go:154-159 | For any top > low, phase 1 takes top where low + low was possible |
| BandwidthPairing.FactorTwoIsTight | pkg/checks/rdma/gpu_nic_lpbk_bw.go:154-159 | For every factor below 2 there are measurements of which phase 1 reaches less than that fraction |
| LeftoverPairing.BestPaired | pkg/checks/rdma/gpu_nic_lpbk_bw.go:237-246 | Per GPU, the first sorted entry on a NIC that phase 1 paired |
| LeftoverPairing.BuildLookup | pkg/checks/rdma/gpu_nic_lpbk_bw.go:202-205 | The lookup holds the last entry of each GPU and NIC, 0 without one |
| LeftoverPairing.PhaseTwo | pkg/checks/rdma/gpu_nic_lpbk_bw.go:259-279 | The loop gives every leftover GPU its pair, advancing the round robin only for GPUs without positive measurement |
| LeftoverPairing.LeftoversShareWell | pkg/checks/rdma/gpu_nic_lpbk_bw.go:228-279 | In the result, a GPU that phase 1 left over has the paired NIC of its largest measured bandwidth if that is positive, the smallest name among equals, else the next paired NIC in turn, with bandwidth 0 |
| BandwidthResult.TurnsAreUnmeasured | pkg/checks/rdma/gpu_nic_lpbk_bw.go:259-279 | The turn is the number of leftover GPUs before it without positive measurement on a paired NIC |
| LeftoverPairing.BandwidthOptimalPairing | pkg/checks/rdma/gpu_nic_lpbk_bw.go:167-283 | Without GPUs or NICs nothing; otherwise both phases, with no pair lost or added by the sort, and either no pair at all or every GPU exactly once, by ID |
| LeftoverPairing.EveryGpuOnceIfMeasured | pkg/checks/rdma/gpu_nic_lpbk_bw.go:167-283 | If no entry names devices of the node the result is empty; otherwise every GPU appears exactly once, in ID order |
| LeftoverPairing.OnlyPairedNics | pkg/checks/rdma/gpu_nic_lpbk_bw.go:161-166 | Phase 1 NICs are pairwise distinct, and phase 2 uses no others |
| BandwidthResult.NoBetterMeasurement | pkg/checks/rdma/gpu_nic_lpbk_bw.go:180-226 | For every measurement of devices of the node, its GPU or its NIC is in a pair of the result with more bandwidth, or as much and the smaller GPU ID, or the same GPU and no larger device name |
| BandwidthResult.BandwidthsAreMeasured | pkg/checks/rdma/gpu_nic_lpbk_bw.go:167-283 | Every pair has 0 hops, and a bandwidth that was measured for its GPU and NIC, or 0 |
| LeftoverPairing.PairingIsOrderFree | pkg/checks/rdma/gpu_nic_lpbk_bw.go:167-283 | Reordering measurements, GPUs or NICs never changes the result |
| Matching.AssignPlacesAll | pkg/checks/rdma/topology.go:598-611 | Pigeonhole: if the NICs together have room for all GPUs, greedy assignment places every GPU |
| Matching.MatchingSize | pkg/checks/rdma/topology.go:537-547 | Greedy matching over all combinations is as large as the smaller side, which it exhausts |
| Pcie.PcieSharedPrefix | pkg/checks/rdma/topology.go:347-358 | The loop finds the length of the longest shared prefix |
| Pcie.PrefixIsShared | pkg/checks/rdma/topology.go:345-358 | That length is the one at which the paths agree and cannot be extended |
| Pcie.DistanceIsAMetric | pkg/checks/rdma/topology.go:360-365 | Zero only for equal paths, symmetric, triangle inequality |
| Pcie.IsFlat | pkg/checks/rdma/topology.go:369-381 | Flat exactly if no path has two segments |
| Pcie.HasPciePaths | pkg/checks/rdma/topology.go:387-399 | The exact opposite of flat |
| Topology.GroupGpusByNuma | pkg/checks/rdma/topology.go:678-684 | Each group holds the GPUs of that NUMA node in input order |
| Topology.GroupNicsByNuma | pkg/checks/rdma/topology.go:686-692 | Each group holds the NICs of that NUMA node in input order |
| Topology.BuildCandidates | pkg/checks/rdma/topology.go:649-672 | All combinations: fewer hops first, then the smaller GPU ID, then the smaller device name, without ties |
| Topology.DeviceDistanceIs | pkg/checks/rdma/topology.go:653-658 | The number of path segments not shared, or 50 if either path has fewer than two segments |
| Ordering.StrLessExactly | pkg/checks/rdma/topology.go:669 | Go's string order: the first character that differs decides, a proper prefix comes first |
| Topology.CandidatesOrderFree | pkg/checks/rdma/topology.go:646-672 | The candidate list does not depend on the order of the devices |
| NumaGroups.NextGroup | pkg/checks/rdma/topology.go:530-547 | Groups do not influence one another: a group assigned after any others gets the assignment it would get alone |
| NumaGroups.GroupOrderFree | pkg/checks/rdma/topology.go:530-547 | A group's pairs do not depend on the order of the devices |
| PcieMatching.PcieDistancePairing | pkg/checks/rdma/topology.go:522-576 | Greedy inside the NUMA groups in any map order, nearest candidates first, then across with the penalty; a matching of size min(#GPUs, #NICs) with ascending GPU IDs |
| PcieMatching.Place | pkg/checks/rdma/topology.go:538-546 | The loop over sorted candidates is greedy matching |
| PcieMatching.GroupExhausted | pkg/checks/rdma/topology.go:549-565 | Phase 1 leaves no NUMA node with both a GPU and a NIC to spare, so phase 2 never pairs inside a NUMA node |
| PcieMatching.MatchesSmallerSide | pkg/checks/rdma/topology.go:522-576 | A matching of size min(#GPUs, #NICs); hops are the distance, plus 100 exactly when the NUMA nodes differ |
| PcieMatching.NoBlockingPair | pkg/checks/rdma/topology.go:530-575 | For any GPU and NIC not paired together, one of them has a pair that ranks strictly earlier, inside pairs before cross pairs, in the order of the candidates |
| Nearest.LocalPairsAreNearest | pkg/checks/rdma/topology.go:530-547 | For a GPU and a NIC of one NUMA node, one of the two is in a pair on that node with hops at most their distance; with equal hops its GPU ID is smaller, or it is the same GPU with that NIC or one of a smaller name |
| Nearest.RemotePairsAreNearest | pkg/checks/rdma/topology.go:549-573 | For a GPU and a NIC of different NUMA nodes, one of the two is in a pair inside its node, or in one with hops at most their distance plus 100, ties decided by GPU ID and device name |
| PcieMatching.PcieOrderFree | pkg/checks/rdma/topology.go:522-576 | The result is the same for every order of the NUMA maps and of the devices |
| Dealing.DealtLoad | pkg/checks/rdma/topology.go:494-498 | Handing out k NICs in turn to n GPUs: NIC r is used n / k times, plus once if r < n mod k |
| NicSharing.NumaAffinityPairing | pkg/checks/rdma/topology.go:474-517 | Each group's zip in any map order, then the fallback in input order; every GPU exactly once by ID, or nothing without NICs |
| NicSharing.NumaLoadBalancePairing | pkg/checks/rdma/topology.go:581-634 | Each group's capacity-bounded greedy assignment in any map order, then the fallback; every GPU exactly once by ID, or nothing without NICs |
| NicSharing.PlaceShared | pkg/checks/rdma/topology.go:601-612 | The loop with its load map is greedy assignment under the capacity |
| NicSharing.FallbackLoop | pkg/checks/rdma/topology.go:615-631 | The remaining GPUs get all NICs by name in turn |
| NicSharing.EveryGpuOnce | pkg/checks/rdma/topology.go:474-634 | With at least one NIC, both strategies give every GPU exactly one pair, in ID order |
| NicSharing.LocalGpuPlaced | pkg/checks/rdma/topology.go:587-612 | Phase 1 places all GPUs of a NUMA node that has NICs |
| NicSharing.PenaltyMeansNoLocalNic | pkg/checks/rdma/topology.go:474-634 | A GPU is paired across, with the penalty, if and only if its NUMA node has no NIC |
| NicSharing.AffinityHops | pkg/checks/rdma/topology.go:487-513 | 0 hops exactly on the same NUMA node, 100 exactly for GPUs whose NUMA node has no NIC |
| NicSharing.AffinityZipsInOrder | pkg/checks/rdma/topology.go:470-499 | The j-th GPU by ID gets the NIC j mod k by name |
| Turns.LocalTurn | pkg/checks/rdma/topology.go:488-498 | A GPU with j GPUs of smaller ID on its NUMA node has the NIC there with j mod k NICs of smaller name |
| Turns.RemoteTurn | pkg/checks/rdma/topology.go:502-512 | A GPU whose NUMA node has no NIC, with j such GPUs listed before it, has the NIC with j mod n NICs of smaller name, for both NUMA strategies |
| NicSharing.NearestUnlessFull | pkg/checks/rdma/topology.go:578-612 | A GPU misses a local NIC only if it has a local pair that comes no later in the order of the candidates, or that NIC is filled to capacity with such pairs |
| Nearest.NearestOrShareUsedUp | pkg/checks/rdma/topology.go:598-609 | For a GPU and a NIC of one NUMA node: the GPU has a NIC there with hops at most their distance, the smaller name deciding ties; or the NIC already serves ceil(g / k) GPUs of the node that are nearer, or as near with smaller IDs |
| NicSharing.LocalLoadIsEven | pkg/checks/rdma/topology.go:598-612 | No NIC serves more than ceil(g / k) GPUs of its own NUMA node; for the zip also at least floor(g / k) |
| NicSharing.AffinityLoadsDifferByOne | pkg/checks/rdma/topology.go:487-499 | NICs of one NUMA node differ by at most one local GPU |
| NicSharing.RemoteLoadsDifferByOne | pkg/checks/rdma/topology.go:501-630 | The GPUs without local NIC are spread so that any two NICs differ by at most one |
| NicSharing.SharingOrderFree | pkg/checks/rdma/topology.go:474-634 | The result depends neither on the order of the NUMA maps nor on the order of the NICs |
| FallbackOrder.SharingOrderExactly | pkg/checks/rdma/topology.go:501-513 | Reordering GPUs and NICs gives the same pairs if and only if every GPU without local NIC keeps its turn modulo the number of NICs |
| FallbackOrder.OneTurnOnly | pkg/checks/rdma/topology.go:614-631 | With at most one GPU without local NIC, or one NIC, no order matters |
| FallbackOrder.InputOrderMatters | pkg/checks/rdma/topology.go:614-631 | Two GPUs without local NIC and two NICs: listed the other way round, the pairs differ |
| MultiNic.MultiNicPciePairing | pkg/checks/rdma/topology.go:442-468 | One pair per NIC with the GPU that the scan chooses, sorted by GPU ID and device |
| MultiNic.FindClosest | pkg/checks/rdma/topology.go:445-458 | The scan over the GPUs computes the choice |
| MultiNic.NearestExactly | pkg/checks/rdma/topology.go:445-458 | The choice is the least GPU by distance and ID with its true distance if and only if that distance is below 50, or equal to 50 and no smaller ID is listed first |
| MultiNic.FarGpuIsReportedNearer | pkg/checks/rdma/topology.go:446-447 | A GPU at distance 60 is reported at 50 |
| MultiNic.EveryNicOnce | pkg/checks/rdma/topology.go:439-468 | Each NIC exactly once, strictly ordered by GPU ID and device |
| MultiNic.EveryNicNearest | pkg/checks/rdma/topology.go:439-468 | Where no distance exceeds 50, each NIC is with its nearest GPU and the hops are the distance |
| MultiNic.MultiNicOrderFree | pkg/checks/rdma/topology.go:442-468 | There the order of GPUs and NICs does not matter |
| MultiNic.MultiNicOrderExactly | pkg/checks/rdma/topology.go:442-468 | Reordering gives the same pairs if and only if the first GPU is the same, or for every NIC some GPU is nearer than 50 or comes before both first GPUs at distance 50 |
| MultiNic.FirstGpuMatters | pkg/checks/rdma/topology.go:445-447 | Two GPUs beyond distance 50: listed the other way round, the NIC goes to the other GPU |
| BuildPairs.BuildPairs | pkg/checks/rdma/topology.go:408-437 | All branches together. In terms of the result: with a path of two segments, SRD and more NICs than GPUs every NIC once; otherwise every GPU once, with its own NIC if there is such a path and NICs suffice, and hops that are the distance, plus 100 across NUMA nodes, if there is such a path and 0 or 100 if not |
| BuildPairs.NothingIsForgotten | pkg/checks/rdma/topology.go:405-437 | The same of every possible result for every node with GPUs and NICs: each GPU in exactly one pair, or each NIC where SRD has more NICs than GPUs and a path of two segments |
| BuildPairs.BuildPairsIsDeterministic | pkg/checks/rdma/topology.go:405-437 | Two runs on the same node give the same pairs |
| EfaReadiness.AcceptedExactly | pkg/controller/bandwidth.go:224-227 | With valid names the EFA expansion accepts the pairs of a node if and only if it has a path of two segments and no more GPUs than NICs, or no NIC serves two GPUs |
| EfaReadiness.MoreGpusThanNicsAreSkipped | pkg/controller/bandwidth.go:224-227 | A node with more GPUs than NICs is never accepted |
| EfaLanes.GroupPairs | pkg/controller/bandwidth.go:215-230 | Accepts exactly non-negative GPU IDs and valid, pairwise distinct devices, and groups them by GPU |
| EfaLanes.ScanNode | pkg/controller/bandwidth.go:209-271 | The checks of one node in their order, and its groups sorted by device |
| EfaLanes.ScanNodes | pkg/controller/bandwidth.go:209-273 | The first unusable node ends the expansion; otherwise the groups of all nodes and the union of the GPU IDs |
| EfaLanes.CollectGroup | pkg/controller/bandwidth.go:288-299 | A GPU is compatible exactly if every node has its group, all equally wide |
| EfaLanes.ExpandEfaBandwidthJobs | pkg/controller/bandwidth.go:198-346 | A single skip for the first unusable node, or the PD jobs, skips and WEP job of the specification |
| EfaAgreement.JobOrSkipPerGpu | pkg/controller/bandwidth.go:287-316 | Every GPU of any node gets exactly one PD job or one skip, a job exactly if all nodes have equally wide groups |
| EfaAgreement.WepExactly | pkg/controller/bandwidth.go:318-343 | A WEP job if and only if all groups are compatible and there is more than one device |
| EfaAgreement.WepUsesEveryDeviceOnce | pkg/controller/bandwidth.go:323-331 | The WEP lanes of a node are the lanes of its topology, each device in exactly one slot |
| EfaAgreement.WepJobLanes | pkg/controller/bandwidth.go:326-331 | In the WEP job each of distinct nodes has its own lanes once |
| EfaAgreement.WepLanesAgree | pkg/controller/bandwidth.go:323-331 | Slot s belongs to the same GPU on every node |
| EfaAgreement.WepIsPdJobsInOrder | pkg/controller/bandwidth.go:323-331 | The WEP lanes are the PD groups one after the other in GPU order |
| EfaAgreement.EndpointsAgree | pkg/controller/bandwidth.go:198-346 | All endpoints of any job have equally many valid lanes, with the same GPU in each slot and no device twice |
| EfaJobs.UsableExactly | pkg/controller/bandwidth.go:209-271 | A node is usable if and only if its pairs are stored, not empty, with valid IDs and names and distinct devices, it has an EFA device for each of them, and GPUs can be requested on it |
| EfaJobs.GpuJobExactly | pkg/controller/bandwidth.go:287-316 | A GPU has a job if and only if it has pairs on every node, equally many on all; otherwise a GPU that occurs somewhere is skipped |
| EfaJobs.WholeEndpointExactly | pkg/controller/bandwidth.go:318-343 | The WEP job is there if and only if every GPU that occurs is equally paired on all nodes and the first node has two pairs; otherwise the skip names the first of these that fails |
| EfaJobs.JobsInOrder | pkg/controller/bandwidth.go:287-343 | The jobs come by ascending GPU ID, the WEP job last, and none comes twice |
| EfaJobs.LanesAreThePairs | pkg/controller/bandwidth.go:236-331 | The lanes of any job on any of its nodes are GPU ID and device of the pairs stored for that node: all of them, or those of the job's GPU |
| EfaJobs.LanesAreOrdered | pkg/controller/bandwidth.go:236-331 | Lanes are numbered by GPU ID, and by device name within one GPU |
| EfaRun.CommandForNode | pkg/checks/rdma/efa_rma_bw_job.go:87-144 | Fails exactly on missing or invalid lanes, address or message size; otherwise slot s runs lane s's GPU on lane s's device and port 18515 + s, and the client's header of slot s names that process's GPU and device |
| EfaRun.BothEndsRun | pkg/checks/rdma/efa_rma_bw_job.go:87-104 | For every expanded job the script of every node can be built |
| EfaRun.EndpointsMeet | pkg/checks/rdma/efa_rma_bw_job.go:105-144 | For every expanded job client and server use port 18515 + s and the same GPU in every slot s, no device twice, and the client's headers name the device and GPU of its processes |
| EfaRun.ProcessesAreThePairs | pkg/checks/rdma/efa_rma_bw_job.go:105-138 | Each process runs a pair of its node's stored topology, the GPU with its own NIC, and each pair that the job is about has a process |
| EfaRun.ExpectedLaneCount | pkg/checks/rdma/efa_rma_bw_job.go:179-184 | The lane count of whichever map entry comes first |
| EfaRun.ExpectedIsTheClientsLaneCount | pkg/checks/rdma/efa_rma_bw_job.go:179-184 | For an expanded job that is the client's lane count, whichever entry it was |
| Text.SplitJoined | pkg/checks/rdma/efa_rma_bw_job.go:189 | Splitting at a marker that does not overlap itself recovers marker-free parts |
| EfaOutput.ReadHeaderFinds | pkg/checks/rdma/efa_rma_bw_job.go:24 | Everything the header expression matches is read, group by group |
| EfaOutput.ReadHeaderMatches | pkg/checks/rdma/efa_rma_bw_job.go:24 | Nothing else is read |
| EfaOutput.HeaderRoundTrip | pkg/checks/rdma/efa_rma_bw_job.go:136-140 | Reading a printed header gives back slot, device, GPU and exit code |
| EfaOutput.HeaderExample | pkg/checks/rdma/efa_rma_bw_job.go:138 | A section starts with the line that the client prints, for example --- EFA LANE 2 DEVICE rdmap0s0 GPU 1 RC 0 --- |
| Text.TrimsAround | pkg/checks/rdma/efa_rma_bw_job.go:201 | strings.TrimSpace removes the white space around a text and nothing else |
| EfaOutput.BodyIsFree | pkg/checks/rdma/efa_rma_bw_job.go:136-140 | A header of a valid device in front of a marker-free log never contains the marker |
| EfaOutput.ParseEfaRmaOutput | pkg/checks/rdma/efa_rma_bw_job.go:188-236 | Accepts exactly if all sections are readable and their slots are 0 to expected - 1, each once; then result s is the section of slot s |
| EfaOutput.AcceptedExactly | pkg/checks/rdma/efa_rma_bw_job.go:136-236 | The rendered output of some sections is accepted if and only if the slots are complete and every successful lane measured exactly once |
| EfaOutput.FramingRoundTrip | pkg/checks/rdma/efa_rma_bw_job.go:136-236 | Each section's header and bandwidth come back at its slot, in whatever order the sections come |
| EfaRun.LanesRecovered | pkg/checks/rdma/efa_rma_bw_job.go:136-236 | A client's output is accepted if and only if every successful lane measured once |
| EfaRun.LaneRecovered | pkg/checks/rdma/efa_rma_bw_job.go:136-236 | Result s has the GPU, device, exit code and bandwidth of lane s |
| EfaRun.SectionOrderIsIrrelevant | pkg/checks/rdma/efa_rma_bw_job.go:188-284 | The order of the sections changes neither acceptance nor results nor status |
| EfaRun.Verdict | pkg/checks/rdma/efa_rma_bw_job.go:244-284 | PASS, WARN and FAIL: one failed lane fails the job; otherwise the sum of all lanes against the thresholds |
| EfaRun.TotalIsSum | pkg/checks/rdma/efa_rma_bw_job.go:250-270 | The total is the sum of the bandwidths of the lanes |
| EfaRun.ParseResult | pkg/checks/rdma/efa_rma_bw_job.go:238-284 | An error exactly if the output is not accepted for the expected lanes, otherwise the status of the lanes it reports |
| Versions.CompareSemver | pkg/checks/crd/crd.go:303-348 | -1, 0 or 1 exactly as the first differing number decides, missing numbers being 0, then release above pre-release, then tag |
| Versions.SemverLeqTotalPreorder | pkg/checks/crd/crd.go:300-348 | A total preorder on all strings, in spite of the zero padding |
| Versions.SemverRoundTrip | pkg/checks/crd/crd.go:304-311 | Reading a version written as v1.2.3-tag gives back its numbers and tag |
| Versions.ToIntReads | pkg/checks/crd/crd.go:318-326 | Decimal numbers are read with an optional sign, up to 64 bits; any other character gives 0 |
| Versions.CompareWritten | pkg/checks/crd/crd.go:300-348 | On written versions: sections 11.2 and 11.3 of Semantic Versioning 2.0.0, and plain text order between tags |
| Precedence.FollowsSection11Exactly | pkg/checks/crd/crd.go:300-348 | For all versions with valid tags: the comparison is the precedence of section 11 of Semantic Versioning 2.0.0 if and only if text order is right for the first identifiers that differ |
| Precedence.NumericTagsAreComparedAsText | pkg/checks/crd/crd.go:341-346 | rc.10 is below rc.9, although rc.9 precedes rc.10 by section 11.4.1 |
| Precedence.HyphenSortsBeforeDot | pkg/checks/crd/crd.go:341-346 | rc-1 is below rc.1, although rc.1 precedes rc-1 by section 11.4.2 |
| Precedence.HyphenSortsBeforeNumbers | pkg/checks/crd/crd.go:341-346 | -a is below 1, although 1 precedes -a by section 11.4.3 |
| Precedence.ReadReleaseWithMetadata | pkg/checks/crd/crd.go:304-326 | A release with metadata is read with patch 0, a number for every further dotted piece, and a tag behind the first hyphen |
| Precedence.ReadTagWithMetadata | pkg/checks/crd/crd.go:304-326 | Behind a pre-release the metadata becomes part of the tag |
| Precedence.MetadataIsIgnoredExactly | pkg/checks/crd/crd.go:300-348 | A version compares equal to itself with metadata if and only if it is a release with patch 0, nothing follows the first hyphen and no further dotted piece counts as a number |
| Precedence.MetadataHidesThePatch | pkg/checks/crd/crd.go:318-326 | Plain metadata puts every release with a patch number below itself |
| Precedence.PatchIsNotIgnored | pkg/checks/crd/crd.go:318-326 | v1.0.1+b is below v1.0.1 |
| Precedence.DottedMetadataIsNotIgnored | pkg/checks/crd/crd.go:310-326 | v1.0.0+a.5 and v1.0.0 do not compare equal |
| Precedence.HyphenatedMetadataIsNotIgnored | pkg/checks/crd/crd.go:350-356 | v1.0.0+a-b and v1.0.0 do not compare equal |
| Precedence.TagIsNotKept | pkg/checks/crd/crd.go:350-356 | v1.0.0-rc+b and v1.0.0-rc do not compare equal |
| Versions.ApiNameRoundTrip | pkg/checks/crd/crd.go:365-386 | Parsing v3alpha1, v3beta2 or v3 gives back the numbers and the stability, for all numbers |
| ApiOrder.DocumentedOrder | pkg/checks/crd/crd.go:388-402 | For all numbered names: less if and only if the major number is smaller, or equal with alpha before beta before stable, or both equal with a smaller minor number; equal only for equal names |
| ApiOrder.DocumentedExample | pkg/checks/crd/crd.go:390 | v1alpha1 < v1alpha2 < v1beta1 < v1beta2 < v1 < v2alpha1 |
| Versions.ApiLeqTotalPreorder | pkg/checks/crd/crd.go:388-402 | compareAPIVersions is a total preorder with antisymmetric sign, also on names that are not numbered |
| Versions.BestServed | pkg/checks/crd/crd.go:200-209 | The loop over the versions computes the specified choice, and lists exactly the served ones |
| Versions.BestIsMaximal | pkg/checks/crd/crd.go:200-209 | The chosen version is served and no served version is above it in compareAPIVersions, also among names that are not numbered |
| Versions.MinimumReachedExactly | pkg/checks/crd/crd.go:228-239 | The API check passes if and only if some served version reaches the minimum in compareAPIVersions, also among names that are not numbered |
| ApiOrder.BestIsGreatest | pkg/checks/crd/crd.go:200-209 | On lists of numbered names the chosen version is served, and every other served one has a smaller major number, or the same and lower stability, or both and a smaller minor number |
| ApiOrder.BestIsFirstOfEquals | pkg/checks/crd/crd.go:204 | Of versions that compare equal the first one listed is chosen |
| ApiOrder.MinimumReachedByNumbers | pkg/checks/crd/crd.go:228-239 | There the check passes if and only if some served version has at least the minimum's numbers, compared in this order |
| Versions.BestIsOrderFree | pkg/checks/crd/crd.go:200-209 | Any other listing order gives an equal version |
| EmptyNames.ScanIsMaximalExactly | pkg/checks/crd/crd.go:200-209 | On every list the choice is maximal if and only if no empty name is served, or a named version not below it, or the last served entry is empty |
| EmptyNames.EmptyNameHidesABetterVersion | pkg/checks/crd/crd.go:204 | With an empty name in between, v0alpha1 is chosen over v0beta1 |

## Left out

- Kubernetes calls, polling, timeouts and log streaming: a call succeeds or fails, whatever the cluster does.
- Discovery of GPUs, NICs and PCIe paths: the pairing starts from arbitrary lists.
- The behaviour of bash, of the pingpong programs and of fi_rma_bw: only the devices, ports, indices and frames that the scripts emit are modelled.
- The measurement expression and ParseFloat: an arbitrary function from a log to its measurements.
- JSON reports, thresholds of the other parsers, status tallies and human-readable messages.
- expandRDMAJobs for InfiniBand and RoCE, RunStar and RunRing: they would add only easy members.
- Pod configurations of the jobs: resource counts are checked but not copied, and their aliasing is not modelled.
- JobNames.KubernetesNameIsFree: says nothing about names of more than 63 characters, where two of them differ only in a hash of 24 bits.
- RunPairwise is one state machine over values rather than a class, because its shared map is updated by concurrent goroutines; the lock is the atomicity of one action.
- The SRD client script enumerates all its devices without filtering; for jobs made by NewPingMeshJob that is the same enumeration.
- Text.IsSpace: lists the code points of unicode.IsSpace; strings are sequences of code points, not bytes.
- LeftoverPairing.BandwidthOptimalPairing: the error field of measurement entries is dropped, since the function does not read it.
- Rounding of floating-point bandwidths: real arithmetic.
