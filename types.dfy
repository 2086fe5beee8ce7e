/** Values shared by the odometry search, the keyframe rules and the optimizer:
    relative transforms, what a registration yields, symbolic poses, and the
    factor and initial-value records of the pose graph. */
module Types {

  /** A 2-D rigid relative transform: translation (dx, dy) and heading change
      dtheta in radians, as the phase-correlation routine returns it. */
  datatype Delta = Delta(dx: real, dy: real, dtheta: real)

  /** Everything the core reads from one registration between two window
      slots. The scalars are computed in floating point from `delta`
      (`norm` = translation length, `degrees` = dtheta in degrees,
      `score` = exp(-|atan2(dy, dx) + dtheta|)); here they are opaque inputs. */
  datatype Registration = Registration(delta: Delta, norm: real, degrees: real, score: real)

  /** An opaque handle on a stored sensor image (raw, Cartesian or filtered). */
  type Image = nat

  /** A frame timestamp. */
  type Stamp = real

  /** A 2-D pose. Dead-reckoned poses are kept symbolic, so that the model
      records which anchor pose a new pose was composed from. `Solved` only
      documents what the nonlinear solver is meant to return: the solver is a
      parameter that may return any pose, and nothing here builds one. */
  datatype Pose =
    | Origin
    | Composed(anchor: Pose, step: Delta)
    | Solved(x: real, y: real, theta: real)

  /** A pose-graph factor between node indices (the X(k) keys), each kind with
      its fixed noise model: the prior, a full relative pose, or a relative
      heading only. */
  datatype Factor =
    | Prior(node: int, pose: Pose)
    | Between(src: int, dst: int, delta: Delta)
    | RotationOnly(src: int, dst: int, dtheta: real)

  /** One entry of the initial-values table handed to the solver. */
  datatype Guess = Guess(node: int, pose: Pose)

  /** Every node a factor mentions is one of the nodes 0..top. */
  predicate FactorWithin(f: Factor, top: int)
  {
    match f
    case Prior(n, _) => 0 <= n <= top
    case Between(a, b, _) => 0 <= a < b <= top
    case RotationOnly(a, b, _) => 0 <= a <= top && 0 <= b <= top
  }

  function Abs(x: real): real
  {
    if x < 0.0 then -x else x
  }

  /** A list without its last element (erase at end()-1). */
  function DropLast<T>(s: seq<T>): (r: seq<T>)
    requires |s| >= 1
    ensures |r| == |s| - 1 && r + [s[|s| - 1]] == s
  {
    s[..|s| - 1]
  }

  /** s lists consecutive integers starting at lo. */
  predicate Consecutive(s: seq<int>, lo: int)
  {
    forall i :: 0 <= i < |s| ==> s[i] == lo + i
  }

  /** g holds, in order, the initial-value entries of nodes lo..|traj|-1 of
      the trajectory traj. */
  predicate GuessesOf(g: seq<Guess>, traj: seq<Pose>, lo: int)
  {
    0 <= lo && lo + |g| == |traj| &&
    forall i :: 0 <= i < |g| ==> g[i] == Guess(lo + i, traj[lo + i])
  }

  /** Extending a trajectory by one pose and its guesses by that pose's entry
      keeps them matched. */
  lemma GuessesOfSnoc(g: seq<Guess>, traj: seq<Pose>, lo: int, p: Pose)
    requires GuessesOf(g, traj, lo)
    ensures GuessesOf(g + [Guess(|traj|, p)], traj + [p], lo)
  {
    var g', t' := g + [Guess(|traj|, p)], traj + [p];
    forall i | 0 <= i < |g'| ensures g'[i] == Guess(lo + i, t'[lo + i]) {
      if i < |g| {
        assert g'[i] == g[i] && t'[lo + i] == traj[lo + i];
      }
    }
  }
}
