# PhaRaO graph optimizer — a Dafny model

This project models the decision and bookkeeping layer of the pose-graph back
end of a radar odometry system. The back end is `GraphOptimizer` in
`src/factor/GraphOptimizer.cpp`. A front end appends one radar frame to a
sliding window and then calls `optimize`. Each call goes through three steps:

- **Entry gate.** The first call only marks the buffer initialized.
- **Odometry step.** Later calls first run the odometry step. It registers the
  newest frame against older frames of the window, nearest baseline first. It
  adds a pose node with a Between factor for the first baseline whose score
  clears a threshold. Otherwise it drops the newest frame.
- **Keyframe step.** After an accepted node, the keyframe step runs. It
  registers the newest frame against the window's first frame and scores it,
  applying two vetoes. It ranks all scratch entries by score and by heading
  change, then decides whether to declare a keyframe. On a keyframe it picks a
  pivot frame and emits heading-only factors from the key node. It hands the
  batch to the incremental solver when more than two nodes were accepted since
  the last solve. Finally it restarts the window at the pivot frame.

The numerics are kept outside the model:

- The phase-correlation registration is a function parameter
  `est(begin, end)`. It returns an opaque `Registration`: the relative
  transform, its translation length, its heading change in degrees and its
  score.
- The nonlinear solver is a function parameter. It maps the factors and
  initial values it has consumed, plus a node index, to a pose.
- Poses are symbolic. A dead-reckoned pose records the anchor pose it was
  composed from and the step.

The modules:

- `Types`: transforms, registrations, poses, factors and initial values.
- `Ranking`: the sorted-permutation specification of the two rankings, and an
  insertion sort proved against it.
- `OdometrySearch`: the baseline search as a function, with iff lemmas for
  each of its three outcomes.
- `KeyframeRules`: the veto, the keyframe condition, the pivot scan and the
  rotation factors as functions of sequences, with their lemmas.
- `Optimizer`: the classes `DataContainer` (the shared frame buffer) and
  `GraphOptimizer` (node counter, key node, window offset, pending batch,
  solver history and the scratch arrays).
  - Each method of `Optimizer` is proved against the functions above.
  - `GraphOptimizer.Valid()` is the object invariant. Every method preserves
    it. It states:
    - every node below `poseCount` has a stored pose;
    - the key node exists;
    - the nodes accepted since the last solve are the newest ones, in order;
    - the pending initial values are the dead-reckoned poses of the newest
      nodes, one entry per node and in order (before the first solve this
      includes node 0, which is not in the node list);
    - every pending factor refers to existing nodes only.

Where the code differs from a natural reading of the algorithm's description
(odometry from the nearest clearing baseline, keyframes at the best-scoring
frame), the model follows the code:

- **Negligible-motion test.** It is applied to every baseline tried, not only
  the first. `SearchNegligibleAt` states this.
- **Pivot fallback.** The pivot starts at slot `num-2`. The fallback to the
  best-scoring slot behind `if(i == -1)` can never run, because `i` is never
  `-1` there. So when no entry clears the threshold, the pivot is `num-2`
  (`PivotOfSpec`). `FindPivot` keeps the dead branch as written.
- **Stale key node.** A declared keyframe without a solve leaves `key_node`
  and `window_loop` as they were. The next rotation factors therefore start
  from the old key node (`SolveStep`, `AfterKeyframe`).
- **Stamps.** The stamp list is trimmed when a frame is dropped. It is not
  touched when the window restarts (`ResetWindow`).
- **Scratch entries.** Entry `k` describes window slot `k+1`. Only entry
  `num-1` is rewritten on each keyframe step, and earlier entries keep the
  values from earlier calls (`ScoreNewestSlot`).

## Model

| member | source | states |
|---|---|---|
| `Ranking.RankBy` | src/factor/GraphOptimizer.cpp:192-218 | The index list returned is a permutation of 0..num-1 along which the keys are non-decreasing; the order of equal keys is left open, as with the unstable sort. |
| `Ranking.TopRankedIsMax` | src/factor/GraphOptimizer.cpp:258 | The last entry of a ranking by score is a slot of maximal score, so the keyframe threshold is the ratio times the largest score in the window. |
| `OdometrySearch.Search` | src/factor/GraphOptimizer.cpp:80-104 | An accepted or negligible outcome names a baseline in 1..num; an accepted one carries the registration of that baseline, a negligible one a baseline whose translation is below the resolution. |
| `OdometrySearch.SearchAcceptsFirstClearing` | src/factor/GraphOptimizer.cpp:80-129 | Baseline ii is accepted iff it is in 1..num, every nearer baseline had non-negligible motion and a score not above the threshold, and ii has non-negligible motion and a score above the threshold. |
| `OdometrySearch.SearchNegligibleAt` | src/factor/GraphOptimizer.cpp:94-102 | The search stops for negligible motion at baseline ii iff ii is in 1..num, every nearer baseline moved on, and ii's translation is below the resolution; this can happen at any baseline. |
| `OdometrySearch.SearchExhaustedIff` | src/factor/GraphOptimizer.cpp:149-158 | The loop runs out iff every baseline 1..num moved on (in particular when num is 0). |
| `KeyframeRules.SlotScore` | src/factor/GraphOptimizer.cpp:178-188 | The stored score is zero when the translation exceeds 1.0 and the lateral offset exceeds 2.0 or the heading change exceeds 90 degrees in either direction, and the raw score otherwise. |
| `KeyframeRules.ScanDownFinds` | src/factor/GraphOptimizer.cpp:266-271 | The scan from rank j-1 down returns the slot at the highest rank below j whose score clears the threshold, and the start value when there is none. |
| `KeyframeRules.PivotOfSpec` | src/factor/GraphOptimizer.cpp:263-275 | The pivot is the slot at the highest rotation rank whose score clears the threshold, else num-2; in both cases it is a slot 0..num-1. |
| `KeyframeRules.RotationFactorsShape` | src/factor/GraphOptimizer.cpp:278-284 | Every emitted factor is heading-only, leaves the key node, ends at node base+k for an entry k that is the pivot or clears the threshold, and carries that entry's heading change. |
| `KeyframeRules.RotationFactorsIncreasing` | src/factor/GraphOptimizer.cpp:278-284 | The end nodes of the emitted factors strictly increase, so no entry gets two factors. |
| `KeyframeRules.RotationFactorsComplete` | src/factor/GraphOptimizer.cpp:278-284 | Every entry that is the pivot or clears the threshold gets a factor from the key node to its node with its heading change. |
| `Optimizer.CopyOut` | src/factor/GraphOptimizer.cpp:201-207 | The ranking is copied to the front of the scratch array and the rest of the array is unchanged. |
| `Optimizer.WithOdomNodeConsistent` | src/factor/GraphOptimizer.cpp:104-129 | Accepting baseline ii keeps the bookkeeping invariant, grows the node count by one, extends the trajectory by exactly the new pose, whose anchor is the pose of node poseCount+1-ii, and the new Between factor joins existing nodes. |
| `Optimizer.AcceptThenGrow` | src/factor/GraphOptimizer.cpp:57-62 | When the keyframe step only grows the graph after an accepted node, the call as a whole adds exactly that node: its Between factor comes first among the new factors and its initial value is the only new one. |
| `Optimizer.AfterKeyframeExtendsGraph` | src/factor/GraphOptimizer.cpp:278-294 | Across a declared keyframe, the factors given or pending for the solver grow by exactly the rotation factors and the initial values do not change, whether or not a solve runs. |
| `Optimizer.DataContainer.RestartWindowAt` | src/factor/GraphOptimizer.cpp:313-331 | The frame at the chosen slot is appended to each keyframe list and becomes the only frame of each window list; the stamps are unchanged. |
| `Optimizer.GraphOptimizer.constructor` | src/factor/GraphOptimizer.cpp:24-35 | Node 0 at the origin with its prior factor and initial value; the invariant holds. |
| `Optimizer.GraphOptimizer.DropNewestFrame` | src/factor/GraphOptimizer.cpp:151-158 | The three window lists and the stamp list each lose exactly their last element; nothing else changes. |
| `Optimizer.GraphOptimizer.AddOdomNode` | src/factor/GraphOptimizer.cpp:104-129 | The bookkeeping becomes `WithOdomNode` of the old one: node poseCount+1 is dead-reckoned from node poseCount+1-ii with the delta, joins the node list, the old current pose is stored, and exactly one Between factor and one initial value are added; nothing else changes and the invariant holds. |
| `Optimizer.GraphOptimizer.TryBaselines` | src/factor/GraphOptimizer.cpp:80-104 | The loop accepts iff the search does, returning the accepted baseline and delta; the odometry slot holds the registration of the last baseline tried. |
| `Optimizer.GraphOptimizer.GenerateOdomFactor` | src/factor/GraphOptimizer.cpp:71-159 | Returns true iff the search accepts; on acceptance the bookkeeping changes exactly as one new node with its Between factor from node poseCount+1-ii and its initial value, and the buffer lists are unchanged; otherwise the bookkeeping is unchanged and the newest frame is dropped from every window list and the stamps. |
| `Optimizer.GraphOptimizer.ScoreNewestSlot` | src/factor/GraphOptimizer.cpp:167-188 | Only entry k of the delta, translation, heading and score arrays is written: with the registration's values and the vetoed score. |
| `Optimizer.GraphOptimizer.RankSlots` | src/factor/GraphOptimizer.cpp:192-224 | costIdx[0..num-1] ranks the entries by score and costIter[0..num-1] by absolute heading change; later positions are unchanged. |
| `Optimizer.GraphOptimizer.FindPivot` | src/factor/GraphOptimizer.cpp:263-275 | The scan returns `PivotOf` of the scores and the heading ranking: the pivot is the entry ranked highest by heading change whose score clears the threshold, else entry num-2. |
| `Optimizer.GraphOptimizer.EmitRotationFactors` | src/factor/GraphOptimizer.cpp:278-284 | The pending batch grows by exactly the rotation factors for entries 0..num-1 in order, and the invariant still holds. |
| `Optimizer.GraphOptimizer.SolveIfDue` | src/factor/GraphOptimizer.cpp:286-311 | With more than two nodes since the last solve, the solver consumes the batch and initial values, which are emptied with the node list, the key node becomes the pivot's node and the window offset grows by num; otherwise nothing changes. |
| `Optimizer.GraphOptimizer.ExtendAndSolve` | src/factor/GraphOptimizer.cpp:278-311 | The rotation factors for the pivot join the batch, then the batch step runs (`AfterKeyframe`); the invariant holds. |
| `Optimizer.GraphOptimizer.CommitKeyframe` | src/factor/GraphOptimizer.cpp:263-331 | Returns `PivotOf` of the scores and the heading ranking; the rotation factors from the old key node join the batch, the batch step runs, and the window restarts at slot 1+pivot. |
| `Optimizer.GraphOptimizer.DecideKeyframe` | src/factor/GraphOptimizer.cpp:255-335 | A keyframe is committed iff num > 1 and either the newest score dropped below the previous one and below the threshold, or num > 3, or the first entry moved more than 30 units; a commit is exactly the rotation factors for the `PivotOf` pivot, the batch step and the window restart, and otherwise nothing changes; the graph only grows and the window ends with at most four frames. |
| `Optimizer.GraphOptimizer.GenerateKeyfFactor` | src/factor/GraphOptimizer.cpp:162-337 | Entry num-1 is scored from the registration of slot num against slot 0, both rankings are sorted permutations, and the bookkeeping and lists change exactly as the keyframe decision says; the graph only grows. |
| `Optimizer.GraphOptimizer.KeyframeStepAfter` | src/factor/GraphOptimizer.cpp:60-62 | The keyframe step after an accepted node (`AcceptedStep`): exactly that node was added, its factor first and its initial value the only new one; entry num-1 of the delta, translation, heading and score arrays, and no other entry, holds the registration of slot num against slot 0 with its vetoed score; both rankings are sorted permutations and keep their entries from position num on; the keyframe decision was applied to the bookkeeping with the new node; the window ends with at most four frames. |
| `Optimizer.GraphOptimizer.Step` | src/factor/GraphOptimizer.cpp:54-63 | `Stepped`: when the search accepts baseline ii, exactly one node is added, dead-reckoned from node poseCount+1-ii, with its Between factor first among the new factors and its initial value the only new one, and then the keyframe step runs on that bookkeeping and on the scratch arrays as they were before the call (entry num-1 alone rescored, both rankings sorted permutations with their entries from position num on kept, the keyframe decision applied), leaving at most four frames, one per node at most. Otherwise the bookkeeping and the keyframe scratch are unchanged and the newest frame is dropped from each window list and the stamps. On either branch (`OdomRecorded`) entry num-1 of the odometry scratch holds the registration of the last baseline tried and no other entry changes. |
| `Optimizer.GraphOptimizer.Optimize` | src/factor/GraphOptimizer.cpp:44-68 | The first call only sets the initialized flag and changes nothing else; later calls do what `Step` states: the odometry step, with the last baseline tried recorded in entry num-1 of the odometry scratch, then the keyframe step exactly when a node was accepted; the rankings keep their entries from position num on; the invariant holds. |

## Left out

- ROS plumbing: parameter loading, the odometry publishers, `publishOdom`/`publishOptOdom`, the image display and all logging are I/O with no logic. The estimate at the old key node that is published before the key node moves is computed but has no further effect.
- GTSAM's ISAM2 internals (update, estimate, graph printing) are library code: the solver is an opaque function of the factors and values it has consumed and a node index.
- `factorGeneration` is external phase correlation: its result is the opaque `est(begin, end)`.
- Floating-point scoring (`exp`, `atan2`, `sqrt`, the degree conversion) and the Eigen pose composition: score, translation length and heading change are opaque reals of a registration, and a composed pose is kept symbolic.
- The unused static counter `cnt` and the unused `init_q`.
- `Optimizer.GraphOptimizer.RankSlots`: `std::sort` sorts a vector in place and the model ranks on a sequence (an insertion sort), then copies it out; only the result, a sorted permutation, is specified.
- The header `GraphOptimizer.hpp` is not part of this model: the scratch array length, `RESOL` and the initial values of `pose_count`, `key_node`, `window_loop` and `current_pose` are constructor parameters or taken as 0 and the origin.
- `Optimizer.GraphOptimizer.Optimize` requires at most `poseCount + 2` frames in the window (one per node plus the new frame); with more, the source's `pose_values.at` may throw, when the accepted baseline reaches past node 0; that case is not modelled.
