/** bsearch_node and bsearch_vector: the same search over two record types. */
module BSearch {
  import opened Waves

  /** The search stands at [lo, hi); best is the latest time at or before key compared so far, at pos. */
  ghost predicate Probed(t: seq<int>, key: int, lo: int, hi: int, best: int, pos: int) {
    && 0 <= lo <= hi <= |t|
    && (forall i :: 0 <= i < lo ==> t[i] < key)
    && (forall i :: hi <= i < |t| ==> key < t[i])
    && (if pos < 0 then best == -2 && (forall i :: 0 <= i < lo ==> t[i] <= -2)
        else pos < lo && best == t[pos] && -2 < best && t[lo - 1] == best)
  }

  lemma ProbeUp(t: seq<int>, key: int, lo: int, hi: int, best: int, pos: int, mid: int)
    requires Sorted(t) && Probed(t, key, lo, hi, best, pos) && lo <= mid < hi && t[mid] < key
    ensures if t[mid] > best then Probed(t, key, mid + 1, hi, t[mid], mid) else Probed(t, key, mid + 1, hi, best, pos)
  {
  }

  /** Where a search ends: the last entry at or before key, but among those before time 0 always the last with the time of entry 1. */
  function Found(t: seq<int>, key: int): (pos: int)
    requires 2 <= |t|
  {
    var k := LastAt(t, key);
    if 0 <= k && 0 <= t[k] then k else LastAt(t, t[1])
  }

  /** When entry 1 has time -1 that is the last entry at or before key, or before time -1 if key is earlier. */
  lemma FoundAt(t: seq<int>, key: int)
    requires Sorted(t) && 2 <= |t| && t[1] == -1
    ensures Found(t, key) == LastAt(t, if key < -1 then -1 else key) >= 1
  {
    var k, m := LastAt(t, key), LastAt(t, -1);
    LastAtNext(t, -1);
    LastAtNext(t, key);
    assert m >= 1 by { assert m + 1 < |t| ==> t[m + 1] > -1; }
    if key >= -1 && !(0 <= k && 0 <= t[k]) {
      LastAtUnique(t, -1, k);
    }
  }

  /** The same without the search for the last entry at or before a time. */
  lemma FoundIs(t: seq<int>, key: int)
    requires Sorted(t) && 2 <= |t|
    ensures var pos := Found(t, key);
            && 0 <= pos < |t|
            && if exists i :: 0 <= i < |t| && 0 <= t[i] <= key
               then 0 <= t[pos] <= key && forall i :: pos < i < |t| ==> key < t[i]
               else t[pos] == t[1] && forall i :: pos < i < |t| ==> t[1] < t[i]
  {
    LastAtNext(t, key);
    LastAtNext(t, t[1]);
  }

  lemma WalkEnds(t: seq<int>, pos: int, key: int)
    requires Sorted(t) && 0 <= pos < |t| && t[pos] <= key
    requires pos + 1 < |t| ==> t[pos] != t[pos + 1]
    requires forall i :: pos <= i < |t| && t[i] <= key ==> t[i] == t[pos]
    ensures LastAt(t, key) == pos
  {
    LastAtUnique(t, key, pos);
  }

  /**
    The libc search with compar_histent or compar_vectorent, which record the best time compared,
    then the fallback to entry 1 and the walk over equal times.
   */
  method Search(t: seq<int>, key: int) returns (pos: int)
    requires Sorted(t) && 2 <= |t|
    ensures pos == Found(t, key)
  {
    var best := -2;
    pos := -1;
    var lo, hi := 0, |t|;
    while lo < hi
      invariant Probed(t, key, lo, hi, best, pos)
    {
      var mid := (lo + hi) / 2;
      if t[mid] < key {
        ProbeUp(t, key, lo, hi, best, pos, mid);
      }
      if t[mid] <= key && t[mid] > best {
        best, pos := t[mid], mid;
      }
      if key < t[mid] {
        hi := mid;
      } else if key > t[mid] {
        lo := mid + 1;
      } else {
        break;
      }
    }
    LastAtNext(t, key);
    assert pos < 0 || best < 0 ==> LastAt(t, key) < 0 || t[LastAt(t, key)] < 0;
    ghost var late := 0 <= pos && 0 <= best;
    if pos < 0 || best < 0 {
      pos := 1;
    }
    ghost var bound := if late then key else t[1];
    assert t[pos] <= bound && (forall i :: pos <= i < |t| && t[i] <= bound ==> t[i] == t[pos]);
    while pos + 1 < |t| && t[pos] == t[pos + 1]
      invariant 0 <= pos < |t| && t[pos] <= bound && (forall i :: pos <= i < |t| && t[i] <= bound ==> t[i] == t[pos])
      invariant t[pos] == if late then best else t[1]
    {
      pos := pos + 1;
    }
    WalkEnds(t, pos, bound);
  }
}
