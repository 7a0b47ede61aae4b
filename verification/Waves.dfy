/** Value change histories and what they say about the value at a time. */
module Waves {
  const MAX_TIME := 0x7FFF_FFFF_FFFF_FFFF

  // AnalyzerBits
  const AN_0 := 0
  const AN_X := 1
  const AN_Z := 2
  const AN_1 := 3
  const AN_H := 4
  const AN_U := 5
  const AN_W := 6
  const AN_L := 7
  const AN_DASH := 8
  const AN_COUNT := 16

  /** One change of a single bit; val is an unsigned char. */
  datatype HistEnt = HistEnt(time: int, val: nat)

  /** One change of a vector. */
  datatype VecEnt = VecEnt(time: int, v: seq<nat>)

  ghost predicate Sorted(t: seq<int>) {
    forall i, j :: 0 <= i <= j < |t| ==> t[i] <= t[j]
  }

  /** The last index whose time is at or before key, or -1. */
  function LastAt(t: seq<int>, key: int): (k: int)
    ensures -1 <= k < |t|
    ensures k >= 0 ==> t[k] <= key
    ensures k + 1 < |t| ==> key < t[|t| - 1]
  {
    if t == [] then -1
    else if t[|t| - 1] <= key then |t| - 1
    else LastAt(t[..|t| - 1], key)
  }

  /** In sorted times it is the only index between a time at or before key and one after it. */
  lemma {:induction false} LastAtUnique(t: seq<int>, key: int, k: int)
    requires Sorted(t) && -1 <= k < |t|
    requires k >= 0 ==> t[k] <= key
    requires k + 1 < |t| ==> key < t[k + 1]
    ensures LastAt(t, key) == k
  {
    if k + 1 < |t| {
      assert t[|t| - 1] > key;
      LastAtUnique(t[..|t| - 1], key, k);
    }
  }

  lemma {:induction false} LastAtNext(t: seq<int>, key: int)
    requires Sorted(t)
    ensures var k := LastAt(t, key); k + 1 < |t| ==> key < t[k + 1]
  {
    if t != [] && t[|t| - 1] > key {
      LastAtNext(t[..|t| - 1], key);
    }
  }

  function Times(h: seq<HistEnt>): (t: seq<int>)
    ensures |t| == |h| && forall i :: 0 <= i < |h| ==> t[i] == h[i].time
  {
    seq(|h|, i requires 0 <= i < |h| => h[i].time)
  }

  function VecTimes(h: seq<VecEnt>): (t: seq<int>)
    ensures |t| == |h| && forall i :: 0 <= i < |h| ==> t[i] == h[i].time
  {
    seq(|h|, i requires 0 <= i < |h| => h[i].time)
  }
}
