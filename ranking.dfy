/** The two index rankings of the keyframe step: the slot indices 0..n-1
    ordered ascending by a key (the slot score, or the absolute heading change
    in degrees). The comparison sort used by the program is not stable, so a
    ranking is specified as SOME permutation that is sorted, with the order of
    equal keys left open. */
module Ranking {
  import opened Types

  /** 0, 1, ..., n-1. */
  function Indices(n: nat): (s: seq<int>)
    ensures |s| == n
    ensures forall i :: 0 <= i < n ==> s[i] == i
  {
    seq(n, i requires 0 <= i < n => i)
  }

  /** `order` lists every slot index of `keys` exactly once, ascending by key. */
  predicate IsRanking(order: seq<int>, keys: seq<real>)
  {
    |order| == |keys| &&
    (forall i :: 0 <= i < |order| ==> 0 <= order[i] < |keys|) &&
    multiset(order) == multiset(Indices(|keys|)) &&
    (forall i, j :: 0 <= i < j < |order| ==> keys[order[i]] <= keys[order[j]])
  }

  /** The pointwise absolute values of a sequence. */
  function AbsAll(s: seq<real>): (r: seq<real>)
    ensures |r| == |s|
    ensures forall i :: 0 <= i < |s| ==> r[i] == Abs(s[i]) && r[i] >= 0.0
  {
    seq(|s|, i requires 0 <= i < |s| => Abs(s[i]))
  }

  /** `order` ranks the first k slot indices of `keys`. */
  predicate RanksPrefix(order: seq<int>, keys: seq<real>, k: nat)
    requires k <= |keys|
  {
    |order| == k &&
    (forall i :: 0 <= i < k ==> 0 <= order[i] < k) &&
    multiset(order) == multiset(Indices(k)) &&
    (forall i, j :: 0 <= i < j < k ==> keys[order[i]] <= keys[order[j]])
  }

  /** Where each entry of `order` lands when k is inserted at position pos. */
  lemma InsertAt(order: seq<int>, k: int, pos: nat)
    requires pos <= |order|
    ensures var r := order[..pos] + [k] + order[pos..];
      |r| == |order| + 1 && r[pos] == k &&
      (forall m :: 0 <= m < pos ==> r[m] == order[m]) &&
      (forall m :: pos < m <= |order| ==> r[m] == order[m - 1])
  {
  }

  /** Inserting slot k just after the entries whose key is at most keys[k]
      keeps the keys ascending. */
  lemma InsertSorted(order: seq<int>, keys: seq<real>, k: nat, pos: nat)
    requires k < |keys| && |order| == k && pos <= k
    requires forall i :: 0 <= i < k ==> 0 <= order[i] < k
    requires forall i, j :: 0 <= i < j < k ==> keys[order[i]] <= keys[order[j]]
    requires forall i :: 0 <= i < pos ==> keys[order[i]] <= keys[k]
    requires pos < k ==> keys[k] < keys[order[pos]]
    ensures var r := order[..pos] + [k] + order[pos..];
      forall i, j :: 0 <= i < j < k + 1 ==> keys[r[i]] <= keys[r[j]]
  {
    var r := order[..pos] + [k] + order[pos..];
    InsertAt(order, k, pos);
    forall i, j | 0 <= i < j < k + 1 ensures keys[r[i]] <= keys[r[j]] {
      if j < pos {
        assert keys[r[i]] == keys[order[i]] && keys[r[j]] == keys[order[j]];
      } else if j == pos {
        assert keys[r[i]] == keys[order[i]];
      } else if i < pos {
        assert keys[r[i]] == keys[order[i]] && keys[r[j]] == keys[order[j - 1]];
      } else if i == pos {
        assert keys[r[j]] == keys[order[j - 1]];
        assert keys[order[pos]] <= keys[order[j - 1]] || pos == j - 1;
      } else {
        assert keys[r[i]] == keys[order[i - 1]] && keys[r[j]] == keys[order[j - 1]];
      }
    }
  }

  /** 0..k is 0..k-1 followed by k. */
  lemma IndicesSnoc(k: nat)
    ensures multiset(Indices(k + 1)) == multiset(Indices(k)) + multiset{k}
  {
    assert Indices(k + 1) == Indices(k) + [k];
  }

  /** Inserting an element anywhere adds it to the multiset of elements. */
  lemma InsertPermutes(order: seq<int>, k: int, pos: nat)
    requires pos <= |order|
    ensures multiset(order[..pos] + [k] + order[pos..]) == multiset(order) + multiset{k}
  {
    assert order[..pos] + order[pos..] == order;
  }

  /** Inserting slot k just after the entries whose key is at most keys[k]
      ranks the first k+1 slots. */
  lemma InsertRanked(order: seq<int>, keys: seq<real>, k: nat, pos: nat)
    requires k < |keys| && RanksPrefix(order, keys, k) && pos <= k
    requires forall i :: 0 <= i < pos ==> keys[order[i]] <= keys[k]
    requires pos < k ==> keys[k] < keys[order[pos]]
    ensures RanksPrefix(order[..pos] + [k] + order[pos..], keys, k + 1)
  {
    var r := order[..pos] + [k] + order[pos..];
    InsertAt(order, k, pos);
    InsertSorted(order, keys, k, pos);
    InsertPermutes(order, k, pos);
    IndicesSnoc(k);
    assert forall i :: 0 <= i < k + 1 ==> 0 <= r[i] < k + 1;
  }

  /** The comparison sort of the slot indices 0..|keys|-1 by `keys`
      (an insertion sort; the callers rely on its contract only). */
  method RankBy(keys: seq<real>) returns (order: seq<int>)
    ensures IsRanking(order, keys)
  {
    order := [];
    var k := 0;
    while k < |keys|
      invariant 0 <= k <= |keys|
      invariant RanksPrefix(order, keys, k)
    {
      var pos := 0;
      while pos < k && keys[order[pos]] <= keys[k]
        invariant 0 <= pos <= k
        invariant forall i :: 0 <= i < pos ==> keys[order[i]] <= keys[k]
      {
        pos := pos + 1;
      }
      InsertRanked(order, keys, k, pos);
      order := order[..pos] + [k] + order[pos..];
      k := k + 1;
    }
  }

  /** The last entry of a ranking is a slot with the largest key. */
  lemma TopRankedIsMax(order: seq<int>, keys: seq<real>)
    requires IsRanking(order, keys) && |keys| > 0
    ensures forall i :: 0 <= i < |keys| ==> keys[i] <= keys[order[|order| - 1]]
  {
    forall i | 0 <= i < |keys| ensures keys[i] <= keys[order[|order| - 1]] {
      assert Indices(|keys|)[i] == i;
      assert i in multiset(Indices(|keys|));
      assert i in multiset(order);
      var j :| 0 <= j < |order| && order[j] == i;
      if j < |order| - 1 {
        assert keys[order[j]] <= keys[order[|order| - 1]];
      }
    }
  }
}
