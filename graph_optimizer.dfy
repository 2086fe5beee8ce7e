/** The optimizer object and the sensor buffer it works on. The buffer keeps
    the sliding window of frames (three parallel image lists and the stamps),
    the keyframe lists and two registration scratch arrays; the optimizer keeps
    the node counter, the keyframe bookkeeping, the pending factor batch and
    initial values, the solver's accumulated graph and five scratch arrays. */
module Optimizer {
  import opened Types
  import opened Ranking
  import opened OdometrySearch
  import opened KeyframeRules

  /** The list state of the sensor buffer. */
  datatype FrameLists = FrameLists(
    initialized: bool,
    window: seq<Image>, cart: seq<Image>, cartF: seq<Image>,
    stamps: seq<Stamp>,
    keyf: seq<Image>, keyfCart: seq<Image>, keyfCartF: seq<Image>)

  /** The sensor buffer shared with the front end, which appends one frame
      (three images and a stamp) before each optimization call. */
  class DataContainer {
    var initialized: bool
    var windowList: seq<Image>
    var windowListCart: seq<Image>
    var windowListCartF: seq<Image>
    var stampList: seq<Stamp>
    var keyfList: seq<Image>
    var keyfListCart: seq<Image>
    var keyfListCartF: seq<Image>
    /** Registration of the newest slot against each baseline (odometry step). */
    const odomList: array<Delta>
    /** Registration of each slot against slot 0 (keyframe step). */
    const delList: array<Delta>

    ghost function Lists(): FrameLists
      reads this
    {
      FrameLists(initialized, windowList, windowListCart, windowListCartF, stampList,
                 keyfList, keyfListCart, keyfListCartF)
    }

    /** The parallel window lists have one entry per frame, there is a stamp
        for every frame, and the scratch arrays hold `capacity` entries. */
    ghost predicate WellFormed(capacity: nat)
      reads this
    {
      odomList.Length == capacity && delList.Length == capacity && odomList != delList &&
      |windowListCart| == |windowList| && |windowListCartF| == |windowList| &&
      |stampList| >= |windowList|
    }

    constructor (capacity: nat)
      ensures WellFormed(capacity) && fresh(odomList) && fresh(delList)
      ensures Lists() == FrameLists(false, [], [], [], [], [], [], [])
    {
      initialized := false;
      windowList, windowListCart, windowListCartF, stampList := [], [], [], [];
      keyfList, keyfListCart, keyfListCartF := [], [], [];
      odomList := new Delta[capacity](_ => Delta(0.0, 0.0, 0.0));
      delList := new Delta[capacity](_ => Delta(0.0, 0.0, 0.0));
    }

    /** Append the frame at window slot `slot` to the keyframe lists and make
        it the only frame of the window. */
    method RestartWindowAt(slot: int)
      requires 0 <= slot < |windowList| && |windowListCart| == |windowList| && |windowListCartF| == |windowList|
      modifies this
      ensures Lists() == ResetWindow(old(Lists()), slot)
    {
      var last, lastCart, lastCartF := windowList[slot], windowListCart[slot], windowListCartF[slot];
      keyfList := keyfList + [last];
      keyfListCart := keyfListCart + [lastCart];
      keyfListCartF := keyfListCartF + [lastCartF];
      windowList, windowListCart, windowListCartF := [last], [lastCart], [lastCartF];
    }
  }

  /** The optimizer's graph bookkeeping. */
  datatype Bookkeeping = Bookkeeping(
    poseCount: int, keyNode: int, windowLoop: int,
    currentPose: Pose, prevPose: Pose,
    poseNodeNums: seq<int>, poseValues: seq<Pose>,
    pending: seq<Factor>, initialValues: seq<Guess>,
    solverFactors: seq<Factor>, solverValues: seq<Guess>)

  /** The dead-reckoned pose of every node 0..poseCount. */
  function Trajectory(b: Bookkeeping): (poses: seq<Pose>)
  {
    b.poseValues + [b.currentPose]
  }

  /** The bookkeeping invariant: every node below poseCount has a stored
      pose; the key node exists; the nodes accepted since the last solve are
      the newest ones, consecutively; the pending initial values are the
      dead-reckoned poses of the newest nodes, one per node; and every pending
      factor refers to existing nodes only. */
  ghost predicate Consistent(b: Bookkeeping)
  {
    0 <= b.poseCount && |b.poseValues| == b.poseCount &&
    0 <= b.keyNode <= b.poseCount &&
    |b.poseNodeNums| <= b.poseCount && Consecutive(b.poseNodeNums, b.poseCount + 1 - |b.poseNodeNums|) &&
    |b.initialValues| <= b.poseCount + 1 &&
    GuessesOf(b.initialValues, Trajectory(b), b.poseCount + 1 - |b.initialValues|) &&
    (forall f :: f in b.pending ==> FactorWithin(f, b.poseCount))
  }

  /** The bookkeeping after accepting baseline ii with transform delta: node
      poseCount+1 is dead-reckoned from node poseCount+1-ii, joins the node
      list, and gets one Between factor and one initial value. */
  function WithOdomNode(b: Bookkeeping, ii: int, delta: Delta): (b': Bookkeeping)
    requires |b.poseValues| == b.poseCount && 1 <= ii <= b.poseCount + 1
  {
    var node := b.poseCount + 1;
    var pose := Composed(Trajectory(b)[node - ii], delta);
    b.(poseCount := node,
       poseNodeNums := b.poseNodeNums + [node],
       poseValues := Trajectory(b),
       currentPose := pose,
       pending := b.pending + [Between(node - ii, node, delta)],
       initialValues := b.initialValues + [Guess(node, pose)])
  }

  /** Accepting a node keeps the bookkeeping consistent, extends the
      trajectory by exactly the new pose (no earlier pose changes), and adds
      a factor that reaches the new node from an existing one. */
  lemma WithOdomNodeConsistent(b: Bookkeeping, ii: int, delta: Delta)
    requires Consistent(b) && 1 <= ii <= b.poseCount + 1
    ensures var a := WithOdomNode(b, ii, delta);
      Consistent(a) && a.poseCount == b.poseCount + 1 &&
      Trajectory(a) == Trajectory(b) + [a.currentPose] &&
      a.currentPose.Composed? && a.currentPose.anchor == Trajectory(b)[b.poseCount + 1 - ii] &&
      FactorWithin(a.pending[|a.pending| - 1], a.poseCount)
  {
    var a := WithOdomNode(b, ii, delta);
    GuessesOfSnoc(b.initialValues, Trajectory(b), b.poseCount + 1 - |b.initialValues|, a.currentPose);
    forall f | f in a.pending ensures FactorWithin(f, a.poseCount) {
      if f in b.pending {
        assert FactorWithin(f, b.poseCount);
      }
    }
  }

  /** The batch step of a declared keyframe: with more than two nodes
      accepted since the last solve, the solver consumes the pending batch and
      initial values, the batch and the node list are emptied, the key node
      becomes the pivot's node (p is the pivot's scratch entry) and the window
      offset grows by num; otherwise nothing changes. */
  function SolveStep(b: Bookkeeping, num: int, p: int, solver: (seq<Factor>, seq<Guess>, int) -> Pose): (b': Bookkeeping)
  {
    if |b.poseNodeNums| > 2 then
      var key := b.poseCount - num + p + 1;
      var fs := b.solverFactors + b.pending;
      var vs := b.solverValues + b.initialValues;
      b.(poseNodeNums := [], pending := [], initialValues := [],
         solverFactors := fs, solverValues := vs,
         keyNode := key, windowLoop := b.windowLoop + num, prevPose := solver(fs, vs, key))
    else
      b
  }

  /** The bookkeeping after a declared keyframe with pivot p and rotation
      factors rot: the rotation factors join the batch, then the batch step. */
  function AfterKeyframe(b: Bookkeeping, num: int, p: int, rot: seq<Factor>,
                         solver: (seq<Factor>, seq<Guess>, int) -> Pose): (b': Bookkeeping)
  {
    SolveStep(b.(pending := b.pending + rot), num, p, solver)
  }

  /** A declared keyframe adds exactly the rotation factors to the graph the
      solver has seen or will see, and no initial value. */
  lemma AfterKeyframeExtendsGraph(b: Bookkeeping, num: int, p: int, rot: seq<Factor>,
                                  solver: (seq<Factor>, seq<Guess>, int) -> Pose)
    ensures var a := AfterKeyframe(b, num, p, rot, solver);
      a.solverFactors + a.pending == b.solverFactors + b.pending + rot &&
      a.solverValues + a.initialValues == b.solverValues + b.initialValues &&
      a.poseCount == b.poseCount && a.currentPose == b.currentPose && a.poseValues == b.poseValues
  {
    if |b.poseNodeNums| > 2 {
      assert b.solverFactors + (b.pending + rot) + [] == b.solverFactors + b.pending + rot;
    }
  }

  /** From b0 to b1 the graph only grows: the factors given or pending for
      the solver are extended, the initial values, node count and current pose
      stay as they are. */
  ghost predicate GraphGrows(b0: Bookkeeping, b1: Bookkeeping)
  {
    b0.solverFactors + b0.pending <= b1.solverFactors + b1.pending &&
    b1.solverValues + b1.initialValues == b0.solverValues + b0.initialValues &&
    b1.poseCount == b0.poseCount && b1.currentPose == b0.currentPose
  }

  /** From b0 to b1 exactly one node was accepted on baseline ii with
      transform delta, and the graph then only grew: node poseCount+1 is
      dead-reckoned from node poseCount+1-ii, its Between factor comes first
      among the new factors, and its initial value is the only new one. */
  ghost predicate NodeAdded(b0: Bookkeeping, b1: Bookkeeping, ii: int, delta: Delta)
  {
    var node := b0.poseCount + 1;
    1 <= ii <= node && node - ii < |Trajectory(b0)| &&
    b1.poseCount == node &&
    b1.currentPose == Composed(Trajectory(b0)[node - ii], delta) &&
    b0.solverFactors + b0.pending + [Between(node - ii, node, delta)] <= b1.solverFactors + b1.pending &&
    b1.solverValues + b1.initialValues == b0.solverValues + b0.initialValues + [Guess(node, b1.currentPose)]
  }

  /** Accepting a node and then running the keyframe step adds exactly that
      node, its factor first and its initial value. */
  lemma AcceptThenGrow(b0: Bookkeeping, b2: Bookkeeping, ii: int, delta: Delta)
    requires Consistent(b0) && 1 <= ii <= b0.poseCount + 1
    requires GraphGrows(WithOdomNode(b0, ii, delta), b2)
    ensures NodeAdded(b0, b2, ii, delta)
  {
    var b1 := WithOdomNode(b0, ii, delta);
    assert b1.solverFactors + b1.pending == b0.solverFactors + b0.pending + [Between(b0.poseCount + 1 - ii, b0.poseCount + 1, delta)];
    assert b1.solverValues + b1.initialValues == b0.solverValues + b0.initialValues + [Guess(b0.poseCount + 1, b1.currentPose)];
  }

  /** The lists after a declared keyframe: the frame at window slot `slot` is
      appended to the keyframe lists and becomes the only frame of the window;
      the stamps are left as they are. */
  function ResetWindow(l: FrameLists, slot: int): (l': FrameLists)
    requires 0 <= slot < |l.window| && |l.cart| == |l.window| && |l.cartF| == |l.window|
  {
    l.(window := [l.window[slot]], cart := [l.cart[slot]], cartF := [l.cartF[slot]],
       keyf := l.keyf + [l.window[slot]], keyfCart := l.keyfCart + [l.cart[slot]],
       keyfCartF := l.keyfCartF + [l.cartF[slot]])
  }

  /** The odometry scratch after a baseline search over window slots 0..num
      that ended with o, from contents before: entry num-1 holds the
      registration of the last baseline tried and no other entry changed;
      with no baseline to try nothing changed. */
  ghost predicate OdomRecorded(odom: array<Delta>, before: seq<Delta>, est: (int, int) -> Registration,
                               num: int, o: OdomOutcome)
    reads odom
  {
    if num >= 1 then num <= |before| && odom[..] == before[num - 1 := Tried(est, num, LastTried(o, num)).delta]
    else odom[..] == before
  }

  /** The copy of a ranking into the front of a scratch array. */
  method CopyOut(dst: array<int>, order: seq<int>)
    requires |order| <= dst.Length
    modifies dst
    ensures dst[..|order|] == order
    ensures dst[|order|..] == old(dst[|order|..])
  {
    var iter := 0;
    while iter < |order|
      invariant 0 <= iter <= |order|
      invariant forall j :: 0 <= j < iter ==> dst[j] == order[j]
      invariant forall j :: iter <= j < dst.Length ==> dst[j] == old(dst[j])
    {
      dst[iter] := order[iter];
      iter := iter + 1;
    }
  }

  class GraphOptimizer {
    const dc: DataContainer
    /** Length of the fixed scratch arrays. */
    const capacity: nat
    /** Negligible-motion translation threshold. */
    const resol: real
    const odomThreshold: real
    const keyfThreshold: real

    var poseCount: int
    var keyNode: int
    var windowLoop: int
    var currentPose: Pose
    var prevPose: Pose
    /** Nodes accepted since the last solve. */
    var poseNodeNums: seq<int>
    /** Dead-reckoned pose of every node below poseCount. */
    var poseValues: seq<Pose>
    /** Factors added since the last solve. */
    var pendingFactors: seq<Factor>
    /** Initial values inserted since the last solve. */
    var initialValues: seq<Guess>
    /** Everything the incremental solver has consumed so far. */
    var solverFactors: seq<Factor>
    var solverValues: seq<Guess>

    /** Per scratch entry: score, translation length, heading change in degrees. */
    const atv: array<real>
    const normV: array<real>
    const normW: array<real>
    /** Scratch entries ranked by score and by absolute heading change. */
    const costIdx: array<int>
    const costIter: array<int>

    ghost function Book(): Bookkeeping
      reads this
    {
      Bookkeeping(poseCount, keyNode, windowLoop, currentPose, prevPose, poseNodeNums, poseValues,
                  pendingFactors, initialValues, solverFactors, solverValues)
    }

    /** The optimizer's invariant: the buffer and the scratch arrays are well
        formed and the bookkeeping is consistent. */
    ghost predicate Valid()
      reads this, dc
    {
      dc.WellFormed(capacity) &&
      atv.Length == capacity && normV.Length == capacity && normW.Length == capacity &&
      costIdx.Length == capacity && costIter.Length == capacity &&
      atv != normV && atv != normW && normV != normW && costIdx != costIter &&
      Consistent(Book())
    }

    /** Node 0 at the origin with its prior factor and initial value. */
    constructor (dc: DataContainer, capacity: nat, resol: real, odomThreshold: real, keyfThreshold: real)
      requires dc.WellFormed(capacity)
      ensures Valid()
      ensures this.dc == dc && this.capacity == capacity && this.resol == resol
      ensures this.odomThreshold == odomThreshold && this.keyfThreshold == keyfThreshold
      ensures fresh(atv) && fresh(normV) && fresh(normW) && fresh(costIdx) && fresh(costIter)
      ensures Book() == Bookkeeping(0, 0, 0, Origin, Origin, [], [], [Prior(0, Origin)], [Guess(0, Origin)], [], [])
    {
      this.dc := dc;
      this.capacity := capacity;
      this.resol := resol;
      this.odomThreshold := odomThreshold;
      this.keyfThreshold := keyfThreshold;
      poseCount, keyNode, windowLoop := 0, 0, 0;
      currentPose, prevPose := Origin, Origin;
      poseNodeNums, poseValues := [], [];
      solverFactors, solverValues := [], [];
      atv := new real[capacity];
      normV := new real[capacity];
      normW := new real[capacity];
      costIdx := new int[capacity];
      costIter := new int[capacity];
      initialValues := [Guess(0, Origin)];
      pendingFactors := [Prior(0, Origin)];
    }

    /** Drop the newest frame from the window lists and the stamps. */
    method DropNewestFrame()
      requires Valid() && |dc.windowList| >= 1
      modifies dc
      ensures Valid()
      ensures dc.Lists() == old(dc.Lists()).(window := DropLast(old(dc.windowList)),
                                             cart := DropLast(old(dc.windowListCart)),
                                             cartF := DropLast(old(dc.windowListCartF)),
                                             stamps := DropLast(old(dc.stampList)))
    {
      dc.windowList := dc.windowList[..|dc.windowList| - 1];
      dc.windowListCart := dc.windowListCart[..|dc.windowListCart| - 1];
      dc.windowListCartF := dc.windowListCartF[..|dc.windowListCartF| - 1];
      dc.stampList := dc.stampList[..|dc.stampList| - 1];
    }

    /** Add node poseCount+1, dead-reckoned from node poseCount+1-ii by delta,
        with its Between factor and initial value. */
    method AddOdomNode(ii: int, delta: Delta)
      requires Valid() && 1 <= ii <= poseCount + 1
      modifies this
      ensures Valid()
      ensures Book() == WithOdomNode(old(Book()), ii, delta)
    {
      ghost var b := Book();
      ghost var a := WithOdomNode(b, ii, delta);
      WithOdomNodeConsistent(b, ii, delta);
      poseCount := poseCount + 1;
      poseNodeNums := poseNodeNums + [poseCount];
      if poseCount - 1 == |poseValues| {
        poseValues := poseValues + [currentPose];
      }
      assert poseValues == Trajectory(b);
      var basePose := poseValues[poseCount - ii];
      currentPose := Composed(basePose, delta);
      assert currentPose == a.currentPose;
      pendingFactors := pendingFactors + [Between(poseCount - ii, poseCount, delta)];
      initialValues := initialValues + [Guess(poseCount, currentPose)];
      assert Book() == a;
    }

    /** The baseline loop of the odometry step: try baselines 1, 2, ..., num
        in order, writing each registration into odomList[num-1], and stop at
        the first with negligible motion or with a score above the threshold.
        Returns whether a baseline was accepted, and which, with its delta. */
    method TryBaselines(est: (int, int) -> Registration, num: int) returns (valid: bool, ii: int, delta: Delta)
      requires 0 <= num <= dc.odomList.Length
      modifies dc.odomList
      ensures var o := Search(est, num, 1, resol, odomThreshold);
        valid == o.Accepted? &&
        (valid ==> ii == o.baseline && delta == o.reg.delta) &&
        (num >= 1 ==> dc.odomList[..] == old(dc.odomList[..])[num - 1 := Tried(est, num, LastTried(o, num)).delta]) &&
        (num == 0 ==> dc.odomList[..] == old(dc.odomList[..]))
    {
      ii := 1;
      valid := false;
      delta := Delta(0.0, 0.0, 0.0);
      while ii <= num
        invariant 1 <= ii <= num + 1
        invariant Search(est, num, ii, resol, odomThreshold) == Search(est, num, 1, resol, odomThreshold)
        invariant ii == 1 ==> dc.odomList[..] == old(dc.odomList[..])
        invariant ii > 1 ==> dc.odomList[..] == old(dc.odomList[..])[num - 1 := Tried(est, num, ii - 1).delta]
      {
        dc.odomList[num - 1] := est(num - ii, num).delta;
        var r := est(num - ii, num);
        if r.norm < resol {
          assert Search(est, num, 1, resol, odomThreshold) == Negligible(ii);
          return;
        }
        if r.score > odomThreshold {
          assert Search(est, num, 1, resol, odomThreshold) == Accepted(ii, r);
          valid, delta := true, r.delta;
          return;
        }
        ii := ii + 1;
      }
    }

    /** The odometry step: run the baseline search; on acceptance add a node,
        otherwise drop the newest frame. */
    method GenerateOdomFactor(est: (int, int) -> Registration) returns (valid: bool)
      requires Valid()
      requires 1 <= |dc.windowList| <= capacity + 1
      requires |dc.windowList| <= poseCount + 2
      modifies this, dc, dc.odomList
      ensures Valid()
      ensures var num := |old(dc.windowList)| - 1;
        var o := Search(est, num, 1, resol, odomThreshold);
        valid == o.Accepted? &&
        (num >= 1 ==> dc.odomList[..] == old(dc.odomList[..])[num - 1 := Tried(est, num, LastTried(o, num)).delta]) &&
        (num == 0 ==> dc.odomList[..] == old(dc.odomList[..]))
      ensures valid ==>
        var num := |old(dc.windowList)| - 1;
        var o := Search(est, num, 1, resol, odomThreshold);
        dc.Lists() == old(dc.Lists()) && Book() == WithOdomNode(old(Book()), o.baseline, o.reg.delta)
      ensures !valid ==>
        Book() == old(Book()) &&
        dc.Lists() == old(dc.Lists()).(window := DropLast(old(dc.windowList)),
                                       cart := DropLast(old(dc.windowListCart)),
                                       cartF := DropLast(old(dc.windowListCartF)),
                                       stamps := DropLast(old(dc.stampList)))
    {
      var num := |dc.windowList| - 1;
      var ii, delta;
      valid, ii, delta := TryBaselines(est, num);
      if valid {
        AddOdomNode(ii, delta);
      } else {
        DropNewestFrame();
      }
    }

    /** Record the registration of the newest slot (scratch entry k) against
        slot 0 and its score, with the two vetoes applied. */
    method ScoreNewestSlot(k: int, r: Registration)
      requires Valid() && 0 <= k < capacity
      modifies dc.delList, atv, normV, normW
      ensures dc.delList[..] == old(dc.delList[..])[k := r.delta]
      ensures normV[..] == old(normV[..])[k := r.norm]
      ensures normW[..] == old(normW[..])[k := r.degrees]
      ensures atv[..] == old(atv[..])[k := SlotScore(r)]
    {
      dc.delList[k] := r.delta;
      normV[k] := r.norm;
      normW[k] := r.degrees;
      atv[k] := r.score;
      if normV[k] > 1.0 {
        if Abs(dc.delList[k].dy) > 2.0 {
          atv[k] := 0.0;
        }
        if Abs(normW[k]) > 90.0 {
          atv[k] := 0.0;
        }
      }
    }

    /** Rank scratch entries 0..num-1 by score into costIdx and by absolute
        heading change into costIter; later entries are left as they are. */
    method RankSlots(num: int)
      requires Valid() && 1 <= num <= capacity
      modifies costIdx, costIter
      ensures IsRanking(costIdx[..num], atv[..num])
      ensures IsRanking(costIter[..num], AbsAll(normW[..num]))
      ensures costIdx[num..] == old(costIdx[num..]) && costIter[num..] == old(costIter[num..])
    {
      var y := RankBy(atv[..num]);
      CopyOut(costIdx, y);
      y := RankBy(AbsAll(normW[..num]));
      CopyOut(costIter, y);
    }

    /** The pivot scan over the rotation ranking, from the largest heading
        change down. */
    method FindPivot(num: int, thresh: real) returns (p: int)
      requires Valid() && 2 <= num <= capacity
      requires IndexesInto(costIter[..num], num) && IndexesInto(costIdx[..num], num)
      ensures p == PivotOf(atv[..num], costIter[..num], thresh)
    {
      var worst := costIdx[num - 1];
      PivotOfSpec(atv[..num], costIter[..num], thresh);
      var i := num - 2;
      var ii := num - 1;
      while ii >= 0
        invariant -1 <= ii <= num - 1
        invariant i == num - 2
        invariant ScanDown(atv[..num], costIter[..num], thresh, ii + 1, num - 2) == PivotOf(atv[..num], costIter[..num], thresh)
      {
        if atv[costIter[ii]] > thresh {
          i := costIter[ii];
          break;
        }
        ii := ii - 1;
      }
      if i == -1 {
        i := worst;
      }
      p := i;
    }

    /** Add a rotation-only factor from the key node to the node of every
        scratch entry that is the pivot or scores above the threshold. */
    method EmitRotationFactors(p: int, thresh: real, num: int)
      requires Valid() && 1 <= num <= capacity && num <= poseCount && 0 <= p < num
      modifies this`pendingFactors
      ensures Valid()
      ensures pendingFactors == old(pendingFactors) +
        RotationFactors(keyNode, poseCount - num + 1, atv[..num], dc.delList[..num], p, thresh)
    {
      var ii := 0;
      while ii < num
        invariant 0 <= ii <= num
        invariant pendingFactors == old(pendingFactors) +
          RotationFactors(keyNode, poseCount - num + 1, atv[..ii], dc.delList[..ii], p, thresh)
      {
        RotationFactorsLast(keyNode, poseCount - num + 1, atv[..ii + 1], dc.delList[..ii + 1], p, thresh);
        assert atv[..ii + 1][..ii] == atv[..ii];
        assert dc.delList[..ii + 1][..ii] == dc.delList[..ii];
        if p == ii {
          pendingFactors := pendingFactors + [RotationOnly(keyNode, poseCount - num + p + 1, dc.delList[p].dtheta)];
        } else if atv[ii] > thresh {
          pendingFactors := pendingFactors + [RotationOnly(keyNode, poseCount - num + ii + 1, dc.delList[ii].dtheta)];
        }
        ii := ii + 1;
      }
      assert atv[..num] == atv[..ii] && dc.delList[..num] == dc.delList[..ii];
      RotationFactorsShape(keyNode, poseCount - num + 1, atv[..num], dc.delList[..num], p, thresh);
    }

    /** A declared keyframe: find the pivot, add the rotation factors, hand
        the batch to the solver when more than two nodes were accepted since
        the last solve, and restart the window at the pivot's frame. */
    method CommitKeyframe(num: int, thresh: real, solver: (seq<Factor>, seq<Guess>, int) -> Pose) returns (p: int)
      requires Valid() && 2 <= num <= capacity && num <= poseCount && |dc.windowList| == num + 1
      requires IndexesInto(costIter[..num], num) && IndexesInto(costIdx[..num], num)
      modifies this, dc
      ensures Valid()
      ensures p == PivotOf(atv[..num], costIter[..num], thresh)
      ensures KeyframeCommitted(num, old(Book()), old(dc.Lists()), solver, thresh, p)
    {
      p := FindPivot(num, thresh);
      PivotOfSpec(atv[..num], costIter[..num], thresh);
      ExtendAndSolve(num, p, thresh, solver);
      dc.RestartWindowAt(1 + p);
    }

    /** The rotation factors for pivot entry p join the batch, then the batch
        step runs. */
    method ExtendAndSolve(num: int, p: int, thresh: real, solver: (seq<Factor>, seq<Guess>, int) -> Pose)
      requires Valid() && 1 <= num <= capacity && num <= poseCount && 0 <= p < num
      modifies this
      ensures Valid()
      ensures Book() == AfterKeyframe(old(Book()), num, p,
        RotationFactors(old(keyNode), old(poseCount) - num + 1, atv[..num], dc.delList[..num], p, thresh), solver)
    {
      ghost var b := Book();
      EmitRotationFactors(p, thresh, num);
      ghost var rot := RotationFactors(b.keyNode, b.poseCount - num + 1, atv[..num], dc.delList[..num], p, thresh);
      assert Book() == b.(pending := b.pending + rot);
      SolveIfDue(num, p, solver);
    }

    /** The batch step of a declared keyframe with pivot entry p. */
    method SolveIfDue(num: int, p: int, solver: (seq<Factor>, seq<Guess>, int) -> Pose)
      requires Valid() && 0 <= p < num <= poseCount
      modifies this
      ensures Valid()
      ensures Book() == SolveStep(old(Book()), num, p, solver)
    {
      if |poseNodeNums| > 2 {
        poseNodeNums := [];
        solverFactors := solverFactors + pendingFactors;
        solverValues := solverValues + initialValues;
        pendingFactors, initialValues := [], [];
        // the estimate at the old key node is only published
        prevPose := solver(solverFactors, solverValues, keyNode);
        keyNode := poseCount - num + p + 1;
        windowLoop := windowLoop + num;
        prevPose := solver(solverFactors, solverValues, keyNode);
      }
    }

    /** The effect of the keyframe decision on bookkeeping b and lists l, given
        the scored and ranked scratch entries 0..num-1: when a keyframe is
        declared, the rotation factors for the pivot `PivotOf`
        join the batch, the batch step runs and the window restarts at slot
        1+pivot; otherwise nothing changes. */
    ghost predicate KeyframeApplied(num: int, b: Bookkeeping, l: FrameLists,
                                    solver: (seq<Factor>, seq<Guess>, int) -> Pose)
      reads this, dc, atv, normV, costIdx, costIter, dc.delList
    {
      1 <= num <= atv.Length && num <= normV.Length && num <= costIdx.Length &&
      num <= costIter.Length && num <= dc.delList.Length &&
      IndexesInto(costIdx[..num], num) && IndexesInto(costIter[..num], num) &&
      if KeyframeDeclared(atv[..num], normV[..num], costIdx[..num], keyfThreshold) then
        var thresh := Threshold(atv[..num], costIdx[..num], keyfThreshold);
        KeyframeCommitted(num, b, l, solver, thresh, PivotOf(atv[..num], costIter[..num], thresh))
      else
        Book() == b && dc.Lists() == l
    }

    /** A keyframe with threshold thresh and pivot entry p was committed from
        bookkeeping b and lists l: the rotation factors from b's key node join
        the batch, the batch step runs and the window restarts at slot 1+p. */
    ghost predicate KeyframeCommitted(num: int, b: Bookkeeping, l: FrameLists,
                                      solver: (seq<Factor>, seq<Guess>, int) -> Pose, thresh: real, p: int)
      reads this, dc, atv, dc.delList
    {
      0 <= p < num <= atv.Length && num <= dc.delList.Length &&
      1 + p < |l.window| && |l.cart| == |l.window| && |l.cartF| == |l.window| &&
      Book() == AfterKeyframe(b, num, p,
        RotationFactors(b.keyNode, b.poseCount - num + 1, atv[..num], dc.delList[..num], p, thresh), solver) &&
      dc.Lists() == ResetWindow(l, 1 + p)
    }

    /** The keyframe decision over the scored and ranked scratch entries
        0..num-1, and the commit when a keyframe is declared. */
    method DecideKeyframe(num: int, solver: (seq<Factor>, seq<Guess>, int) -> Pose)
      requires Valid() && 1 <= num <= capacity && num <= poseCount && |dc.windowList| == num + 1
      requires IndexesInto(costIdx[..num], num) && IndexesInto(costIter[..num], num)
      modifies this, dc
      ensures Valid()
      ensures KeyframeApplied(num, old(Book()), old(dc.Lists()), solver)
      ensures GraphGrows(old(Book()), Book())
      ensures 1 <= |dc.windowList| <= 4 && |dc.windowList| <= poseCount + 1
    {
      ghost var b, l := Book(), dc.Lists();
      if num > 1 {
        var thresh := keyfThreshold * atv[costIdx[num - 1]];
        var constraint1 := atv[num - 1] < atv[num - 2] && atv[num - 1] < thresh;
        var constraint2 := num > 3;
        var constraint3 := normV[0] > 30.0;
        assert costIdx[..num][num - 1] == costIdx[num - 1];
        assert atv[..num][costIdx[num - 1]] == atv[costIdx[num - 1]];
        assert thresh == Threshold(atv[..num], costIdx[..num], keyfThreshold);
        assert constraint1 || constraint2 || constraint3 <==>
          KeyframeDeclared(atv[..num], normV[..num], costIdx[..num], keyfThreshold);
        if constraint1 || constraint2 || constraint3 {
          var p := CommitKeyframe(num, thresh, solver);
          AfterKeyframeExtendsGraph(b, num, p,
            RotationFactors(b.keyNode, b.poseCount - num + 1, atv[..num], dc.delList[..num], p, thresh), solver);
          assert KeyframeApplied(num, b, l, solver);
        } else {
          assert num <= 3;
        }
      }
    }

    /** The keyframe step: register the newest slot against slot 0, score it,
        rank the scratch entries, and apply the keyframe decision. */
    method GenerateKeyfFactor(est: (int, int) -> Registration, solver: (seq<Factor>, seq<Guess>, int) -> Pose)
      requires Valid()
      requires 2 <= |dc.windowList| <= capacity + 1 && |dc.windowList| <= poseCount + 1
      modifies this, dc, dc.delList, atv, normV, normW, costIdx, costIter
      ensures Valid()
      ensures var num := |old(dc.windowList)| - 1;
        var r := est(0, num);
        dc.delList[..] == old(dc.delList[..])[num - 1 := r.delta] &&
        normV[..] == old(normV[..])[num - 1 := r.norm] &&
        normW[..] == old(normW[..])[num - 1 := r.degrees] &&
        atv[..] == old(atv[..])[num - 1 := SlotScore(r)]
      ensures var num := |old(dc.windowList)| - 1;
        IsRanking(costIdx[..num], atv[..num]) && IsRanking(costIter[..num], AbsAll(normW[..num])) &&
        costIdx[num..] == old(costIdx[num..]) && costIter[num..] == old(costIter[num..])
      ensures KeyframeApplied(|old(dc.windowList)| - 1, old(Book()), old(dc.Lists()), solver)
      ensures GraphGrows(old(Book()), Book())
      ensures 1 <= |dc.windowList| <= 4 && |dc.windowList| <= poseCount + 1
    {
      var num := |dc.windowList| - 1;
      ghost var b, l := Book(), dc.Lists();
      ScoreNewestSlot(num - 1, est(0, num));
      RankSlots(num);
      assert Book() == b && dc.Lists() == l;
      assert IndexesInto(costIdx[..num], num) && IndexesInto(costIter[..num], num);
      DecideKeyframe(num, solver);
    }

    /** The keyframe step over window slots 0..num ran from bookkeeping b,
        lists l and scratch contents dels, norms, degrees and scores: entry
        num-1, and no other, was scored from the registration of slot num
        against slot 0, both rankings are sorted permutations of the entries,
        and the keyframe decision was applied. */
    ghost predicate KeyframeStepFrom(est: (int, int) -> Registration, solver: (seq<Factor>, seq<Guess>, int) -> Pose,
                                     num: int, b: Bookkeeping, l: FrameLists,
                                     dels: seq<Delta>, norms: seq<real>, degrees: seq<real>, scores: seq<real>)
      reads this, dc, atv, normV, normW, costIdx, costIter, dc.delList
    {
      var r := est(0, num);
      1 <= num <= |dels| && num <= |norms| && num <= |degrees| && num <= |scores| &&
      num <= costIdx.Length && num <= costIter.Length &&
      dc.delList[..] == dels[num - 1 := r.delta] &&
      normV[..] == norms[num - 1 := r.norm] &&
      normW[..] == degrees[num - 1 := r.degrees] &&
      atv[..] == scores[num - 1 := SlotScore(r)] &&
      IsRanking(costIdx[..num], atv[..num]) && IsRanking(costIter[..num], AbsAll(normW[..num])) &&
      KeyframeApplied(num, b, l, solver)
    }

    /** An optimization call that accepted baseline ii with transform delta,
        from bookkeeping b0, lists l0, scratch contents dels, norms, degrees
        and scores, and rankings idx and iter: exactly one node was added with
        its Between factor (followed by any rotation factors) and its initial
        value, the keyframe step then ran on the bookkeeping with the new node,
        the rankings past the scored entries kept their contents, and the
        window ends with at most four frames, one per node at most. */
    ghost predicate AcceptedStep(est: (int, int) -> Registration, solver: (seq<Factor>, seq<Guess>, int) -> Pose,
                                 b0: Bookkeeping, ii: int, delta: Delta, l0: FrameLists,
                                 dels: seq<Delta>, norms: seq<real>, degrees: seq<real>, scores: seq<real>,
                                 idx: seq<int>, iter: seq<int>)
      reads this, dc, atv, normV, normW, costIdx, costIter, dc.delList
    {
      |b0.poseValues| == b0.poseCount && 1 <= ii <= b0.poseCount + 1 &&
      NodeAdded(b0, Book(), ii, delta) &&
      1 <= |dc.windowList| <= 4 && |dc.windowList| <= poseCount + 1 &&
      KeyframeStepFrom(est, solver, |l0.window| - 1, WithOdomNode(b0, ii, delta), l0, dels, norms, degrees, scores) &&
      RankTailsKept(|l0.window| - 1, idx, iter)
    }

    /** What one optimization call on an initialized buffer does, from the
        state before the call: when the baseline search accepts, the odometry
        node and then the keyframe step (`AcceptedStep`); otherwise the
        bookkeeping and the keyframe scratch are unchanged and the newest frame
        is dropped. */
    twostate predicate Stepped(est: (int, int) -> Registration, solver: (seq<Factor>, seq<Guess>, int) -> Pose)
      reads this, dc, atv, normV, normW, costIdx, costIter, dc.delList
    {
      var num := |old(dc.windowList)| - 1;
      var o := Search(est, num, 1, resol, odomThreshold);
      if o.Accepted? then
        AcceptedStep(est, solver, old(Book()), o.baseline, o.reg.delta, old(dc.Lists()),
                     old(dc.delList[..]), old(normV[..]), old(normW[..]), old(atv[..]),
                     old(costIdx[..]), old(costIter[..]))
      else
        |old(dc.windowList)| >= 1 && |old(dc.windowListCart)| >= 1 &&
        |old(dc.windowListCartF)| >= 1 && |old(dc.stampList)| >= 1 &&
        Book() == old(Book()) && unchanged(atv, normV, normW, costIdx, costIter, dc.delList) &&
        dc.Lists() == old(dc.Lists()).(window := DropLast(old(dc.windowList)),
                                       cart := DropLast(old(dc.windowListCart)),
                                       cartF := DropLast(old(dc.windowListCartF)),
                                       stamps := DropLast(old(dc.stampList)))
    }

    /** Positions num and later of both rankings still hold idx and iter. */
    ghost predicate RankTailsKept(num: int, idx: seq<int>, iter: seq<int>)
      reads this, costIdx, costIter
    {
      0 <= num <= costIdx.Length && num <= costIter.Length && num <= |idx| && num <= |iter| &&
      costIdx[num..] == idx[num..] && costIter[num..] == iter[num..]
    }

    /** The body of an optimization call on an initialized buffer: the
        odometry step, then the keyframe step when a node was accepted. */
    method Step(est: (int, int) -> Registration, solver: (seq<Factor>, seq<Guess>, int) -> Pose)
      requires Valid()
      requires 1 <= |dc.windowList| <= capacity + 1 && |dc.windowList| <= poseCount + 2
      modifies this, dc, dc.odomList, dc.delList, atv, normV, normW, costIdx, costIter
      ensures Valid() && dc.initialized == old(dc.initialized)
      ensures Stepped(est, solver)
      ensures var num := |old(dc.windowList)| - 1;
        OdomRecorded(dc.odomList, old(dc.odomList[..]), est, num, Search(est, num, 1, resol, odomThreshold))
    {
      ghost var o := Search(est, |dc.windowList| - 1, 1, resol, odomThreshold);
      var valid := GenerateOdomFactor(est);
      assert OdomRecorded(dc.odomList, old(dc.odomList[..]), est, |old(dc.windowList)| - 1, o);
      if valid {
        KeyframeStepAfter(est, solver, old(Book()), o.baseline, o.reg.delta, old(dc.Lists()),
                          old(dc.delList[..]), old(normV[..]), old(normW[..]), old(atv[..]),
                          old(costIdx[..]), old(costIter[..]));
      }
    }

    /** The keyframe step that follows the acceptance of baseline ii with
        transform delta from bookkeeping b0; l, dels, norms, degrees and
        scores name the current lists and scratch contents, idx and iter the
        current rankings. */
    method KeyframeStepAfter(est: (int, int) -> Registration, solver: (seq<Factor>, seq<Guess>, int) -> Pose,
                             ghost b0: Bookkeeping, ghost ii: int, ghost delta: Delta, ghost l: FrameLists,
                             ghost dels: seq<Delta>, ghost norms: seq<real>, ghost degrees: seq<real>,
                             ghost scores: seq<real>, ghost idx: seq<int>, ghost iter: seq<int>)
      requires Valid()
      requires 2 <= |dc.windowList| <= capacity + 1 && |dc.windowList| <= poseCount + 1
      requires Consistent(b0) && 1 <= ii <= b0.poseCount + 1 && Book() == WithOdomNode(b0, ii, delta)
      requires dc.Lists() == l && dc.delList[..] == dels && normV[..] == norms && normW[..] == degrees &&
               atv[..] == scores
      requires costIdx[..] == idx && costIter[..] == iter
      modifies this, dc, dc.delList, atv, normV, normW, costIdx, costIter
      ensures Valid() && dc.initialized == old(dc.initialized)
      ensures AcceptedStep(est, solver, b0, ii, delta, l, dels, norms, degrees, scores, idx, iter)
    {
      GenerateKeyfFactor(est, solver);
      AcceptThenGrow(b0, Book(), ii, delta);
    }

    /** One optimization call after the front end appended a frame: the first
        call only marks the buffer initialized; later calls run the odometry
        step and, when it accepts a node, the keyframe step. */
    method Optimize(est: (int, int) -> Registration, solver: (seq<Factor>, seq<Guess>, int) -> Pose)
      requires Valid()
      requires 1 <= |dc.windowList| <= capacity + 1 && |dc.windowList| <= poseCount + 2
      modifies this, dc, dc.odomList, dc.delList, atv, normV, normW, costIdx, costIter
      ensures Valid() && dc.initialized
      ensures !old(dc.initialized) ==>
        Book() == old(Book()) && dc.Lists() == old(dc.Lists()).(initialized := true) &&
        unchanged(dc.odomList, atv, normV, normW, costIdx, costIter, dc.delList)
      ensures old(dc.initialized) ==> Stepped(est, solver)
      ensures old(dc.initialized) ==>
        var num := |old(dc.windowList)| - 1;
        OdomRecorded(dc.odomList, old(dc.odomList[..]), est, num, Search(est, num, 1, resol, odomThreshold))
    {
      if dc.initialized == false {
        dc.initialized := true;
      } else {
        Step(est, solver);
      }
    }
  }
}
