/** The two slice rearrangements the stores perform in place: compaction after
    a removal, and the exchange of two elements that sorting is made of. */
module Slices {

  /** `copy(s[k:], s[k+1:]); s = s[:len(s)-1]`: the element at `k` is dropped
      and everything after it moves one place to the front. */
  function RemoveAt<T>(s: seq<T>, k: nat): (r: seq<T>)
    requires k < |s|
    ensures |r| == |s| - 1
    ensures forall i :: 0 <= i < k ==> r[i] == s[i]
    ensures forall i :: k <= i < |r| ==> r[i] == s[i + 1]
    ensures multiset(r) + multiset{s[k]} == multiset(s)
  {
    assert s == s[..k] + [s[k]] + s[k + 1..];
    s[..k] + s[k + 1..]
  }

  /** A sequence is the part before `k`, the element at `k`, and the part
      after; removing `k` joins the two parts. */
  lemma RemoveAtSplit<T>(s: seq<T>, k: nat)
    requires k < |s|
    ensures s == s[..k] + [s[k]] + s[k + 1..]
    ensures RemoveAt(s, k) == s[..k] + s[k + 1..]
  {
  }

  /** Removing an element brings in nothing new. */
  lemma RemoveAtSubset<T>(s: seq<T>, k: nat)
    requires k < |s|
    ensures forall x :: x in RemoveAt(s, k) ==> x in s
  {
    var r := RemoveAt(s, k);
    forall x | x in r
      ensures x in s
    {
      var i :| 0 <= i < |r| && r[i] == x;
      if i < k {
        assert s[i] == x;
      } else {
        assert s[i + 1] == x;
      }
    }
  }

  /** `s[i], s[j] = s[j], s[i]`: the two elements trade places, the rest stay. */
  function Swap<T>(s: seq<T>, i: nat, j: nat): (r: seq<T>)
    requires i < |s| && j < |s|
    ensures |r| == |s|
    ensures r[i] == s[j] && r[j] == s[i]
    ensures forall k :: 0 <= k < |s| && k != i && k != j ==> r[k] == s[k]
    ensures multiset(r) == multiset(s)
  {
    s[i := s[j]][j := s[i]]
  }
}
