/** Looking a time up in the merged vector history and in the histories of its bits. */
module Lookup {
  import opened Waves
  import opened BSearch
  import opened BitVec

  /** A history as the loaders build it, between its four endcaps. */
  ghost predicate Loaded(h: seq<HistEnt>) {
    && 4 <= |h| && Sorted(Times(h))
    && h[0].time == -2 && h[1].time == -1 && h[|h| - 2].time == MAX_TIME - 1 && h[|h| - 1].time == MAX_TIME
  }

  lemma LoadedShaped(h: seq<HistEnt>)
    requires Loaded(h)
    ensures Shaped(h)
  {
    var t := Times(h);
    forall k | 1 <= k < |h| ensures -1 <= h[k].time <= MAX_TIME { assert t[1] <= t[k] <= t[|h| - 1]; }
    forall j, k | 1 <= j <= k < |h| ensures h[j].time <= h[k].time { assert t[j] <= t[k]; }
  }

  /** Without shift a bit's value at a time is that of the last entry at or before it. */
  lemma UnshiftedBitAt(b: Bits, i: nat, key: int)
    requires i < |b.nodes| && b.attribs == [] && -1 <= key
    requires Shaped(b.nodes[i]) && Sorted(Times(b.nodes[i])) && b.nodes[i][0].time <= -1
    ensures var k := LastAt(Times(b.nodes[i]), key);
            0 <= k && BitAt(b, i, key) == b.nodes[i][k].val % AN_COUNT
  {
    var h := b.nodes[i];
    var t, s := Times(h), Shown(h, 0);
    ShownSorted(h, 0);
    LastAtNext(t, key);
    forall j | 1 <= j < |h| ensures s[j] == t[j] { }
    LastAtUnique(s, key, LastAt(t, key));
  }

  ghost predicate AllLoaded(b: Bits) {
    1 <= |b.nodes| && b.attribs == [] && forall i {:trigger b.nodes[i]} :: 0 <= i < |b.nodes| ==> Loaded(b.nodes[i])
  }

  lemma AllLoadedWellFormed(b: Bits)
    requires AllLoaded(b)
    ensures WellFormed(b)
  {
    forall i | 0 <= i < |b.nodes| ensures Shaped(b.nodes[i]) { LoadedShaped(b.nodes[i]); }
  }

  /** The second region of a merge of loaded bits is a -1 endcap as well. */
  lemma SecondRegion(b: Bits, R: seq<VecEnt>)
    requires AllLoaded(b) && MergeOf(b, R)
    ensures Sorted(VecTimes(R)) && R[1].time == -1
  {
    AllLoadedWellFormed(b);
    MergedSorted(b, R);
    assert VecTimes(R)[0] <= VecTimes(R)[1];
    assert Loaded(b.nodes[0]);
  }

  /**
    On loaded, unshifted, uninverted bits the region found in any merge of them agrees, bit by bit,
    with the entry found in the bit's own history, for every time before the end.
   */
  lemma LookupAgrees(b: Bits, R: seq<VecEnt>, key: int)
    requires AllLoaded(b) && MergeOf(b, R) && key < MAX_TIME
    ensures var r := Found(VecTimes(R), key);
            && 0 <= r < |R| && |R[r].v| == |b.nodes|
            && forall i: nat {:trigger b.nodes[i]} :: i < |b.nodes| ==>
              && 2 <= |b.nodes[i]| && 0 <= Found(Times(b.nodes[i]), key) < |b.nodes[i]|
              && R[r].v[i] == b.nodes[i][Found(Times(b.nodes[i]), key)].val % AN_COUNT
  {
    AllLoadedWellFormed(b);
    SecondRegion(b, R);
    var at := if key < -1 then -1 else key;
    FoundAt(VecTimes(R), key);
    RegionLookup(b, R, at);
    forall i: nat {:trigger b.nodes[i]} | i < |b.nodes|
      ensures 2 <= |b.nodes[i]| && 0 <= Found(Times(b.nodes[i]), key) < |b.nodes[i]|
      ensures R[Found(VecTimes(R), key)].v[i] == b.nodes[i][Found(Times(b.nodes[i]), key)].val % AN_COUNT
    {
      assert Loaded(b.nodes[i]);
      LoadedShaped(b.nodes[i]);
      FoundAt(Times(b.nodes[i]), key);
      UnshiftedBitAt(b, i, at);
    }
  }

  /** Both searches: bsearch_vector in the merged history and bsearch_node in that of each bit. */
  method LookUp(b: Bits, R: seq<VecEnt>, key: int) returns (region: VecEnt, entries: seq<HistEnt>)
    requires AllLoaded(b) && MergeOf(b, R) && key < MAX_TIME
    ensures 0 <= Found(VecTimes(R), key) < |R| && region == R[Found(VecTimes(R), key)]
    ensures |entries| == |b.nodes| == |region.v|
    ensures forall i: nat {:trigger entries[i]} :: i < |entries| ==>
      && 2 <= |b.nodes[i]| && 0 <= Found(Times(b.nodes[i]), key) < |b.nodes[i]|
      && entries[i] == b.nodes[i][Found(Times(b.nodes[i]), key)] && region.v[i] == entries[i].val % AN_COUNT
  {
    SecondRegion(b, R);
    LookupAgrees(b, R, key);
    var r := Search(VecTimes(R), key);
    region := R[r];
    entries := [];
    for i := 0 to |b.nodes|
      invariant |entries| == i
      invariant forall j: nat {:trigger entries[j]} :: j < i ==>
        && 2 <= |b.nodes[j]| && 0 <= Found(Times(b.nodes[j]), key) < |b.nodes[j]|
        && entries[j] == b.nodes[j][Found(Times(b.nodes[j]), key)] && region.v[j] == entries[j].val % AN_COUNT
    {
      assert Loaded(b.nodes[i]);
      var e := Search(Times(b.nodes[i]), key);
      entries := entries + [b.nodes[i][e]];
    }
  }
}
