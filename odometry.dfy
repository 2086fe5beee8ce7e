/** The coarse-to-fine baseline search of the odometry step, as a function of
    the registration results. The window's newest frame is slot num; baseline
    ii registers slot num-ii against slot num. */
module OdometrySearch {
  import opened Types

  /** How the search ends: the first baseline whose score clears the
      threshold, a baseline with negligible motion, or no baseline left. */
  datatype OdomOutcome =
    | Accepted(baseline: nat, reg: Registration)
    | Negligible(baseline: nat)
    | Exhausted

  /** The registration tried for baseline ii. */
  function Tried(est: (int, int) -> Registration, num: int, ii: int): Registration
  {
    est(num - ii, num)
  }

  /** Baseline ii is tried and the search moves on to ii+1: its motion is not
      negligible and its score does not clear the threshold. */
  predicate MovesOn(est: (int, int) -> Registration, num: int, ii: int, resol: real, threshold: real)
  {
    var r := Tried(est, num, ii);
    !(r.norm < resol) && !(r.score > threshold)
  }

  /** Baselines from, from+1, ..., num tried in that order. */
  function Search(est: (int, int) -> Registration, num: int, from: nat, resol: real, threshold: real): (o: OdomOutcome)
    requires 1 <= from
    ensures o.Accepted? ==> from <= o.baseline <= num && o.reg == Tried(est, num, o.baseline)
    ensures o.Negligible? ==> from <= o.baseline <= num && Tried(est, num, o.baseline).norm < resol
    decreases num + 1 - from
  {
    if from > num then Exhausted
    else
      var r := Tried(est, num, from);
      if r.norm < resol then Negligible(from)
      else if r.score > threshold then Accepted(from, r)
      else Search(est, num, from + 1, resol, threshold)
  }

  /** The baseline whose registration the search wrote last. */
  function LastTried(o: OdomOutcome, num: int): int
  {
    match o
    case Accepted(ii, _) => ii
    case Negligible(ii) => ii
    case Exhausted => num
  }

  /** The search accepts baseline ii exactly when ii is in range, every
      nearer baseline moved on, and ii itself has non-negligible motion and a
      score above the threshold; the accepted registration is the one of ii. */
  lemma {:induction false} SearchAcceptsFirstClearing(est: (int, int) -> Registration, num: int, from: nat,
                                                     resol: real, threshold: real, ii: nat)
    requires 1 <= from
    ensures Search(est, num, from, resol, threshold) == Accepted(ii, Tried(est, num, ii)) <==>
            (from <= ii <= num &&
             !(Tried(est, num, ii).norm < resol) && Tried(est, num, ii).score > threshold &&
             forall k :: from <= k < ii ==> MovesOn(est, num, k, resol, threshold))
    decreases num + 1 - from
  {
    if from <= num {
      var r := Tried(est, num, from);
      if !(r.norm < resol) && !(r.score > threshold) {
        SearchAcceptsFirstClearing(est, num, from + 1, resol, threshold, ii);
        if from <= ii <= num && !(Tried(est, num, ii).norm < resol) && Tried(est, num, ii).score > threshold &&
           (forall k :: from + 1 <= k < ii ==> MovesOn(est, num, k, resol, threshold)) {
          assert ii != from;
          assert forall k :: from <= k < ii ==> MovesOn(est, num, k, resol, threshold);
        }
      } else {
        if from < ii {
          assert !MovesOn(est, num, from, resol, threshold);
        }
      }
    }
  }

  /** The search stops at baseline ii for negligible motion exactly when ii is
      in range, every nearer baseline moved on, and ii's motion is below
      the resolution; this applies to every baseline, not only the nearest. */
  lemma {:induction false} SearchNegligibleAt(est: (int, int) -> Registration, num: int, from: nat,
                                             resol: real, threshold: real, ii: nat)
    requires 1 <= from
    ensures Search(est, num, from, resol, threshold) == Negligible(ii) <==>
            (from <= ii <= num && Tried(est, num, ii).norm < resol &&
             forall k :: from <= k < ii ==> MovesOn(est, num, k, resol, threshold))
    decreases num + 1 - from
  {
    if from <= num {
      var r := Tried(est, num, from);
      if !(r.norm < resol) && !(r.score > threshold) {
        SearchNegligibleAt(est, num, from + 1, resol, threshold, ii);
        if from <= ii <= num && Tried(est, num, ii).norm < resol &&
           (forall k :: from + 1 <= k < ii ==> MovesOn(est, num, k, resol, threshold)) {
          assert ii != from;
          assert forall k :: from <= k < ii ==> MovesOn(est, num, k, resol, threshold);
        }
      } else {
        if from < ii {
          assert !MovesOn(est, num, from, resol, threshold);
        }
      }
    }
  }

  /** The search runs out of baselines exactly when every baseline from..num
      moved on (in particular when there is none, num < from). */
  lemma {:induction false} SearchExhaustedIff(est: (int, int) -> Registration, num: int, from: nat,
                                             resol: real, threshold: real)
    requires 1 <= from
    ensures Search(est, num, from, resol, threshold) == Exhausted <==>
            forall k :: from <= k <= num ==> MovesOn(est, num, k, resol, threshold)
    decreases num + 1 - from
  {
    if from <= num {
      var r := Tried(est, num, from);
      if !(r.norm < resol) && !(r.score > threshold) {
        SearchExhaustedIff(est, num, from + 1, resol, threshold);
        assert MovesOn(est, num, from, resol, threshold);
      } else {
        assert !MovesOn(est, num, from, resol, threshold);
      }
    }
  }
}
