/** The decision rules of the keyframe step over the scratch arrays, as
    functions of sequences: scratch index k describes window slot k+1
    registered against slot 0, num is the index of the newest slot. */
module KeyframeRules {
  import opened Types
  import opened Ranking

  /** The two vetoes: a registration that moved more than one unit is unusable
      when its lateral offset exceeds 2.0 or its heading change exceeds 90
      degrees either way. */
  predicate Vetoed(r: Registration)
  {
    r.norm > 1.0 && (Abs(r.delta.dy) > 2.0 || Abs(r.degrees) > 90.0)
  }

  /** The score stored for a slot: the raw score, overwritten by zero by each
      veto in turn. */
  function SlotScore(r: Registration): (s: real)
    ensures Vetoed(r) ==> s == 0.0
    ensures !Vetoed(r) ==> s == r.score
  {
    var s0 := r.score;
    if r.norm > 1.0 then
      var s1 := if Abs(r.delta.dy) > 2.0 then 0.0 else s0;
      if Abs(r.degrees) > 90.0 then 0.0 else s1
    else s0
  }

  /** The orders of the scratch entries are index lists into them. */
  predicate IndexesInto(order: seq<int>, n: nat)
  {
    forall j :: 0 <= j < |order| ==> 0 <= order[j] < n
  }

  /** The keyframe threshold: the configured ratio times the score of the
      slot ranked last (highest) by score. */
  function Threshold(scores: seq<real>, byScore: seq<int>, ratio: real): (t: real)
    requires |byScore| >= 1 && IndexesInto(byScore, |scores|)
  {
    ratio * scores[byScore[|byScore| - 1]]
  }

  /** A keyframe is declared when there are at least two scratch entries and
      the newest score both dropped and fell below the threshold, or more than
      three entries accumulated, or the first entry moved more than 30 units. */
  predicate KeyframeDeclared(scores: seq<real>, norms: seq<real>, byScore: seq<int>, ratio: real)
    requires |scores| == |norms| == |byScore| >= 1 && IndexesInto(byScore, |scores|)
  {
    var num := |scores|;
    num > 1 &&
    ((scores[num - 1] < scores[num - 2] && scores[num - 1] < Threshold(scores, byScore, ratio)) ||
     num > 3 ||
     norms[0] > 30.0)
  }

  /** Scan the rotation ranking from position j-1 down to 0 for the first slot
      scoring above the threshold; `fallback` when there is none. */
  function ScanDown(scores: seq<real>, byRotation: seq<int>, thresh: real, j: nat, fallback: int): (p: int)
    requires j <= |byRotation| && IndexesInto(byRotation, |scores|)
    decreases j
  {
    if j == 0 then fallback
    else if scores[byRotation[j - 1]] > thresh then byRotation[j - 1]
    else ScanDown(scores, byRotation, thresh, j - 1, fallback)
  }

  /** The pivot slot: the scan starts at the largest heading change, and
      when no slot clears the threshold the pivot stays the second-newest. */
  function PivotOf(scores: seq<real>, byRotation: seq<int>, thresh: real): (p: int)
    requires |byRotation| >= 2 && IndexesInto(byRotation, |scores|)
  {
    ScanDown(scores, byRotation, thresh, |byRotation|, |byRotation| - 2)
  }

  /** ScanDown returns the entry at the highest position below j whose slot
      clears the threshold, and the fallback when none does. */
  lemma {:induction false} ScanDownFinds(scores: seq<real>, byRotation: seq<int>, thresh: real, j: nat, fallback: int)
    requires j <= |byRotation| && IndexesInto(byRotation, |scores|)
    ensures var p := ScanDown(scores, byRotation, thresh, j, fallback);
      ((exists m :: 0 <= m < j && scores[byRotation[m]] > thresh) ==>
         exists m :: 0 <= m < j && p == byRotation[m] && scores[p] > thresh &&
                     forall n :: m < n < j ==> scores[byRotation[n]] <= thresh) &&
      ((forall m :: 0 <= m < j ==> scores[byRotation[m]] <= thresh) ==> p == fallback)
    decreases j
  {
    if j > 0 && !(scores[byRotation[j - 1]] > thresh) {
      ScanDownFinds(scores, byRotation, thresh, j - 1, fallback);
    }
  }

  /** The pivot is the rotation-ranked slot at the highest rank whose score
      clears the threshold, or slot num-2 when no slot does; either way it is
      a slot of the window. */
  lemma PivotOfSpec(scores: seq<real>, byRotation: seq<int>, thresh: real)
    requires |byRotation| == |scores| >= 2 && IndexesInto(byRotation, |scores|)
    ensures var p := PivotOf(scores, byRotation, thresh);
      0 <= p < |scores| &&
      ((exists m :: 0 <= m < |byRotation| && scores[byRotation[m]] > thresh) ==>
         exists m :: 0 <= m < |byRotation| && p == byRotation[m] && scores[p] > thresh &&
                     forall n :: m < n < |byRotation| ==> scores[byRotation[n]] <= thresh) &&
      ((forall m :: 0 <= m < |byRotation| ==> scores[byRotation[m]] <= thresh) ==> p == |scores| - 2)
  {
    ScanDownFinds(scores, byRotation, thresh, |byRotation|, |byRotation| - 2);
  }

  /** A scratch entry k gets a rotation factor when it is the pivot or its
      score clears the threshold. */
  predicate Selected(scores: seq<real>, p: int, thresh: real, k: int)
    requires 0 <= k < |scores|
  {
    k == p || scores[k] > thresh
  }

  /** The rotation-only factors for scratch entries 0..|scores|-1 in order:
      entry k links node key to node base+k with the heading change of its
      registration against slot 0. */
  function RotationFactors(key: int, base: int, scores: seq<real>, deltas: seq<Delta>, p: int, thresh: real): (rot: seq<Factor>)
    requires |scores| == |deltas|
    decreases |scores|
  {
    if |scores| == 0 then []
    else
      var n := |scores| - 1;
      RotationFactors(key, base, scores[..n], deltas[..n], p, thresh) +
      (if n == p || scores[n] > thresh then [RotationOnly(key, base + n, deltas[n].dtheta)] else [])
  }

  /** Unfolding RotationFactors by its last entry. */
  lemma RotationFactorsLast(key: int, base: int, scores: seq<real>, deltas: seq<Delta>, p: int, thresh: real)
    requires |scores| == |deltas| > 0
    ensures var n := |scores| - 1;
      RotationFactors(key, base, scores, deltas, p, thresh) ==
      RotationFactors(key, base, scores[..n], deltas[..n], p, thresh) +
      (if Selected(scores, p, thresh, n) then [RotationOnly(key, base + n, deltas[n].dtheta)] else [])
  {
  }

  /** Each rotation factor links node key to node base+k for a selected
      entry k and carries that entry's heading change. */
  lemma {:induction false} RotationFactorsShape(key: int, base: int, scores: seq<real>, deltas: seq<Delta>, p: int, thresh: real)
    requires |scores| == |deltas|
    ensures var r := RotationFactors(key, base, scores, deltas, p, thresh);
      forall i :: 0 <= i < |r| ==>
        r[i].RotationOnly? && r[i].src == key && base <= r[i].dst < base + |scores| &&
        Selected(scores, p, thresh, r[i].dst - base) && r[i].dtheta == deltas[r[i].dst - base].dtheta
    decreases |scores|
  {
    if |scores| > 0 {
      var n := |scores| - 1;
      var s, d := scores[..n], deltas[..n];
      RotationFactorsShape(key, base, s, d, p, thresh);
      RotationFactorsLast(key, base, scores, deltas, p, thresh);
      var r0 := RotationFactors(key, base, s, d, p, thresh);
      var r := RotationFactors(key, base, scores, deltas, p, thresh);
      forall i | 0 <= i < |r0|
        ensures r[i].RotationOnly? && r[i].src == key && base <= r[i].dst < base + n
        ensures Selected(scores, p, thresh, r[i].dst - base)
        ensures r[i].dtheta == deltas[r[i].dst - base].dtheta
      {
        assert r[i] == r0[i];
        assert s[r0[i].dst - base] == scores[r0[i].dst - base];
        assert d[r0[i].dst - base] == deltas[r0[i].dst - base];
      }
    }
  }

  /** The end nodes of the rotation factors strictly increase, so no entry
      gets two factors. */
  lemma {:induction false} RotationFactorsIncreasing(key: int, base: int, scores: seq<real>, deltas: seq<Delta>, p: int, thresh: real)
    requires |scores| == |deltas|
    ensures var r := RotationFactors(key, base, scores, deltas, p, thresh);
      forall i, j :: 0 <= i < j < |r| ==> r[i].RotationOnly? && r[j].RotationOnly? && r[i].dst < r[j].dst
    decreases |scores|
  {
    if |scores| > 0 {
      var n := |scores| - 1;
      var s, d := scores[..n], deltas[..n];
      RotationFactorsIncreasing(key, base, s, d, p, thresh);
      RotationFactorsShape(key, base, s, d, p, thresh);
      RotationFactorsLast(key, base, scores, deltas, p, thresh);
      var r0 := RotationFactors(key, base, s, d, p, thresh);
      var r := RotationFactors(key, base, scores, deltas, p, thresh);
      assert forall i :: 0 <= i < |r0| ==> r[i] == r0[i];
    }
  }

  /** Every selected entry k gets a rotation factor ending at node base+k. */
  lemma {:induction false} RotationFactorsComplete(key: int, base: int, scores: seq<real>, deltas: seq<Delta>, p: int, thresh: real)
    requires |scores| == |deltas|
    ensures var r := RotationFactors(key, base, scores, deltas, p, thresh);
      forall k :: 0 <= k < |scores| && Selected(scores, p, thresh, k) ==>
        exists i :: 0 <= i < |r| && r[i] == RotationOnly(key, base + k, deltas[k].dtheta)
    decreases |scores|
  {
    if |scores| > 0 {
      var n := |scores| - 1;
      var s, d := scores[..n], deltas[..n];
      RotationFactorsComplete(key, base, s, d, p, thresh);
      RotationFactorsLast(key, base, scores, deltas, p, thresh);
      var r0 := RotationFactors(key, base, s, d, p, thresh);
      var r := RotationFactors(key, base, scores, deltas, p, thresh);
      forall k | 0 <= k < |scores| && Selected(scores, p, thresh, k)
        ensures exists i :: 0 <= i < |r| && r[i] == RotationOnly(key, base + k, deltas[k].dtheta)
      {
        if k < n {
          assert Selected(s, p, thresh, k);
          var i :| 0 <= i < |r0| && r0[i] == RotationOnly(key, base + k, d[k].dtheta);
          assert r[i] == r0[i];
        } else {
          assert r[|r0|] == RotationOnly(key, base + k, deltas[k].dtheta);
        }
      }
    }
  }
}
