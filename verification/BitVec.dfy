/** bits2vector: merging the histories of several bits into one vector history. */
module BitVec {
  import opened Waves

  datatype Attr = Attr(shift: int, invert: bool)

  /** A Bits structure; no attribs stands for a null pointer. */
  datatype Bits = Bits(nodes: seq<seq<HistEnt>>, attribs: seq<Attr>) {
    function Shift(i: nat): int {
      if i < |attribs| then attribs[i].shift else 0
    }

    function Invert(i: nat): bool {
      if i < |attribs| then attribs[i].invert else false
    }
  }

  /** The displayed time of a change; the endcaps are not shifted. */
  function Tmod(time: int, shift: int): int {
    if 0 <= time < MAX_TIME - 2 then
      if time + shift < 0 then 0 else if time + shift > MAX_TIME - 2 then MAX_TIME - 2 else time + shift
    else time
  }

  /** The stored code of a value, complemented for an inverted bit. */
  function Code(v: nat, invert: bool): nat {
    if !invert then v % AN_COUNT
    else if v == AN_0 || v == '0' as nat then AN_1
    else if v == AN_1 || v == '1' as nat then AN_0
    else if v == AN_H || v == 'h' as nat || v == 'H' as nat then AN_L
    else if v == AN_L || v == 'l' as nat || v == 'L' as nat then AN_H
    else if v == 'x' as nat || v == 'X' as nat then AN_X
    else if v == 'z' as nat || v == 'Z' as nat then AN_Z
    else if v == 'u' as nat || v == 'U' as nat then AN_U
    else if v == 'w' as nat || v == 'W' as nat then AN_W
    else v % AN_COUNT
  }

  /** The head, then displayed times in order from -1 on. */
  ghost predicate Shaped(h: seq<HistEnt>) {
    && 1 <= |h|
    && (forall k :: 1 <= k < |h| ==> -1 <= h[k].time <= MAX_TIME)
    && (forall j, k :: 1 <= j <= k < |h| ==> h[j].time <= h[k].time)
  }

  ghost predicate WellFormed(b: Bits) {
    && 1 <= |b.nodes| && (b.attribs == [] || |b.attribs| == |b.nodes|)
    && forall i :: 0 <= i < |b.nodes| ==> Shaped(b.nodes[i])
  }

  /** Displayed times of a bit; the head counts from the beginning. */
  function Shown(h: seq<HistEnt>, shift: int): (t: seq<int>)
    ensures |t| == |h| && forall k :: 0 <= k < |h| ==> t[k] == if k == 0 then -1 else Tmod(h[k].time, shift)
  {
    seq(|h|, k requires 0 <= k < |h| => if k == 0 then -1 else Tmod(h[k].time, shift))
  }

  lemma ShownSorted(h: seq<HistEnt>, shift: int)
    requires Shaped(h)
    ensures Sorted(Shown(h, shift)) && forall k :: 0 <= k < |h| ==> -1 <= Shown(h, shift)[k] <= MAX_TIME
  {
  }

  /** The code of bit i at time t: that of its last change displayed at or before t. */
  function BitAt(b: Bits, i: nat, t: int): nat
    requires i < |b.nodes| && |b.nodes[i]| >= 1 && -1 <= t
  {
    var k := LastAt(Shown(b.nodes[i], b.Shift(i)), t);
    if k < 0 then 0 else Code(b.nodes[i][k].val, b.Invert(i))
  }

  /** Pointer i stands at entry k: displayed by lo, and the next one not before hi. */
  ghost predicate Between(b: Bits, i: nat, k: nat, lo: int, hi: int)
    requires i < |b.nodes|
  {
    && k < |b.nodes[i]|
    && (k > 0 ==> Tmod(b.nodes[i][k].time, b.Shift(i)) <= lo)
    && (k + 1 < |b.nodes[i]| ==> hi <= Tmod(b.nodes[i][k + 1].time, b.Shift(i)))
  }

  /** A region that shows entry k of bit i on [lo, hi) shows the bit's value at every time there. */
  lemma BetweenValue(b: Bits, i: nat, k: nat, lo: int, hi: int, t: int)
    requires WellFormed(b) && i < |b.nodes| && Between(b, i, k, lo, hi) && -1 <= lo <= t < hi
    ensures Code(b.nodes[i][k].val, b.Invert(i)) == BitAt(b, i, t)
  {
    var s := Shown(b.nodes[i], b.Shift(i));
    ShownSorted(b.nodes[i], b.Shift(i));
    LastAtUnique(s, t, k);
  }

  /** Region r of the merged history is right from its own time up to the time of the next one. */
  ghost predicate RegionOk(b: Bits, v: VecEnt, next: int) {
    && |v.v| == |b.nodes| && -1 <= v.time <= next
    && forall i, t {:trigger BitAt(b, i, t)} :: 0 <= i < |b.nodes| && v.time <= t < next && |b.nodes[i]| >= 1 ==> v.v[i] == BitAt(b, i, t)
  }

  ghost predicate Merged(b: Bits, R: seq<VecEnt>, next: int) {
    forall r {:trigger R[r]} :: 0 <= r < |R| ==> RegionOk(b, R[r], if r + 1 < |R| then R[r + 1].time else next)
  }

  lemma MergedAppend(b: Bits, R: seq<VecEnt>, v: VecEnt, next: int)
    requires Merged(b, R, v.time) && RegionOk(b, v, next)
    ensures Merged(b, R + [v], next)
  {
    var S := R + [v];
    forall r {:trigger S[r]} | 0 <= r < |S| ensures RegionOk(b, S[r], if r + 1 < |S| then S[r + 1].time else next) {
      if r < |R| {
        assert R[r] == S[r];
      }
    }
  }

  /* ---------- the merge loop ---------- */

  /** Entries still ahead of the pointers. */
  ghost function Ahead(b: Bits, h: seq<nat>): int
    requires |h| <= |b.nodes|
  {
    if h == [] then 0 else Ahead(b, h[..|h| - 1]) + |b.nodes[|h| - 1]| - h[|h| - 1]
  }

  lemma {:induction false} AheadLess(b: Bits, h: seq<nat>, h': seq<nat>)
    requires |h| == |h'| <= |b.nodes|
    requires forall i :: 0 <= i < |h| ==> h[i] <= h'[i] < |b.nodes[i]|
    ensures 0 <= Ahead(b, h') <= Ahead(b, h)
    ensures h != h' ==> Ahead(b, h') < Ahead(b, h)
  {
    if h != [] {
      AheadLess(b, h[..|h| - 1], h'[..|h| - 1]);
      assert h == h[..|h| - 1] + [h[|h| - 1]] && h' == h'[..|h| - 1] + [h'[|h| - 1]];
    }
  }

  ghost predicate Standing(b: Bits, h: seq<nat>, lo: int, hi: int) {
    && |h| == |b.nodes|
    && forall i {:trigger h[i]} :: 0 <= i < |h| ==> Between(b, i, h[i], lo, hi)
  }

  /** First inner loop: the earliest displayed time of a next entry. */
  method MinNext(b: Bits, h: array<nat>, ghost last: int) returns (mintime: int)
    requires WellFormed(b) && Standing(b, h[..], last, last) && -1 <= last <= MAX_TIME
    ensures last <= mintime <= MAX_TIME && Standing(b, h[..], last, mintime)
    ensures mintime < MAX_TIME ==> exists i :: 0 <= i < h.Length && Moves(b, i, h[i], mintime)
  {
    mintime := MAX_TIME;
    for i := 0 to h.Length
      invariant last <= mintime <= MAX_TIME
      invariant forall j {:trigger h[j]} :: 0 <= j < i ==> Between(b, j, h[j], last, mintime)
      invariant mintime < MAX_TIME ==> exists j :: 0 <= j < i && Moves(b, j, h[j], mintime)
    {
      assert Between(b, i, h[..][i], last, last);
      if h[i] + 1 < |b.nodes[i]| {
        var tmod := Tmod(b.nodes[i][h[i] + 1].time, b.Shift(i));
        if tmod < mintime {
          mintime := tmod;
          assert Moves(b, i, h[i], mintime);
        }
      }
    }
  }

  /** The pointer of bit i goes to its next entry at time m. */
  predicate Moves(b: Bits, i: nat, k: nat, m: int)
    requires i < |b.nodes|
  {
    k + 1 < |b.nodes[i]| && Tmod(b.nodes[i][k + 1].time, b.Shift(i)) == m
  }

  /** Second inner loop: the current codes, and the pointers whose next entry is due move on. */
  method Advance(b: Bits, h: array<nat>, mintime0: int, ghost last: int) returns (v: seq<nat>)
    requires WellFormed(b) && Standing(b, h[..], last, mintime0)
    modifies h
    ensures |v| == h.Length
    ensures forall i {:trigger v[i]} {:trigger h[i]} :: 0 <= i < h.Length ==>
      && old(h[i]) < |b.nodes[i]|
      && v[i] == Code(b.nodes[i][old(h[i])].val, b.Invert(i))
      && h[i] == old(h[i]) + if Moves(b, i, old(h[i]), mintime0) then 1 else 0
  {
    v := [];
    var mintime := mintime0;
    for i := 0 to h.Length
      invariant |v| == i && mintime == mintime0
      invariant forall j {:trigger v[j]} {:trigger h[j]} :: 0 <= j < i ==>
        && old(h[j]) < |b.nodes[j]|
        && v[j] == Code(b.nodes[j][old(h[j])].val, b.Invert(j))
        && h[j] == old(h[j]) + if Moves(b, j, old(h[j]), mintime0) then 1 else 0
      invariant forall j :: i <= j < h.Length ==> h[j] == old(h[j])
    {
      assert Between(b, i, old(h[..])[i], last, mintime);
      v := v + [Code(b.nodes[i][h[i]].val, b.Invert(i))];
      if h[i] + 1 < |b.nodes[i]| {
        var tmod := Tmod(b.nodes[i][h[i] + 1].time, b.Shift(i));
        if tmod < mintime {
          mintime := tmod;
        }
        if tmod == mintime {
          h[i] := h[i] + 1;
        }
      }
    }
  }

  lemma RegionRight(b: Bits, h: seq<nat>, v: VecEnt, next: int)
    requires WellFormed(b) && Standing(b, h, v.time, next) && -1 <= v.time <= next && |v.v| == |h|
    requires forall i :: 0 <= i < |h| ==> h[i] < |b.nodes[i]| && v.v[i] == Code(b.nodes[i][h[i]].val, b.Invert(i))
    ensures RegionOk(b, v, next)
  {
    forall i, t {:trigger BitAt(b, i, t)} | 0 <= i < |b.nodes| && v.time <= t < next && |b.nodes[i]| >= 1
      ensures v.v[i] == BitAt(b, i, t)
    {
      BetweenValue(b, i, h[i], v.time, next, t);
    }
  }

  lemma StillStanding(b: Bits, h: seq<nat>, h': seq<nat>, last: int, m: int)
    requires WellFormed(b) && Standing(b, h, last, m) && last <= m && |h'| == |h|
    requires forall i {:trigger h'[i]} :: 0 <= i < |h| ==> h'[i] == h[i] + if Moves(b, i, h[i], m) then 1 else 0
    ensures Standing(b, h', m, m)
  {
    forall i {:trigger h'[i]} | 0 <= i < |h'| ensures Between(b, i, h'[i], m, m) {
      assert Between(b, i, h[i], last, m);
      ShownSorted(b.nodes[i], b.Shift(i));
      assert Sorted(Shown(b.nodes[i], b.Shift(i)));
      if h'[i] + 1 < |b.nodes[i]| {
        assert Shown(b.nodes[i], b.Shift(i))[h'[i]] <= Shown(b.nodes[i], b.Shift(i))[h'[i] + 1];
      }
    }
  }

  /** One region of the merged history, and the pointers moved to the next time. */
  method MergeStep(b: Bits, h: array<nat>, last: int) returns (vadd: VecEnt, mintime: int)
    requires WellFormed(b) && Standing(b, h[..], last, last) && -1 <= last <= MAX_TIME
    modifies h
    ensures last <= mintime <= MAX_TIME && vadd.time == last && RegionOk(b, vadd, mintime)
    ensures Standing(b, h[..], mintime, mintime) && Standing(b, old(h[..]), last, mintime)
    ensures mintime < MAX_TIME ==> Ahead(b, h[..]) < Ahead(b, old(h[..])) && ChangesAt(b, mintime)
    ensures 0 <= Ahead(b, h[..])
  {
    mintime := MinNext(b, h, last);
    ghost var h0 := h[..];
    var v := Advance(b, h, mintime, last);
    vadd := VecEnt(last, v);
    RegionRight(b, h0, vadd, mintime);
    StillStanding(b, h0, h[..], last, mintime);
    Moved(b, h0, h[..], last, mintime);
  }

  lemma Moved(b: Bits, h: seq<nat>, h': seq<nat>, last: int, m: int)
    requires Standing(b, h, last, m) && Standing(b, h', m, m) && |h'| == |h|
    requires forall i {:trigger h'[i]} :: 0 <= i < |h| ==> h'[i] == h[i] + if Moves(b, i, h[i], m) then 1 else 0
    requires m < MAX_TIME ==> exists i :: 0 <= i < |h| && Moves(b, i, h[i], m)
    ensures m < MAX_TIME ==> Ahead(b, h') < Ahead(b, h)
    ensures 0 <= Ahead(b, h')
  {
    forall i | 0 <= i < |h| ensures h[i] <= h'[i] < |b.nodes[i]| {
      assert Between(b, i, h'[i], m, m);
    }
    AheadLess(b, h, h');
    if m < MAX_TIME {
      var i :| 0 <= i < |h| && Moves(b, i, h[i], m);
      assert h'[i] != h[i];
    }
  }

  /** m is not after any bit's first change. */
  ghost predicate BeforeFirst(b: Bits, m: int) {
    forall i: nat {:trigger b.nodes[i]} :: i < |b.nodes| && 2 <= |b.nodes[i]| ==> m <= Tmod(b.nodes[i][1].time, b.Shift(i))
  }

  lemma AtStart(b: Bits, h: seq<nat>, m: int)
    requires Standing(b, h, -1, m) && forall i :: 0 <= i < |h| ==> h[i] == 0
    ensures BeforeFirst(b, m)
  {
    forall i: nat {:trigger b.nodes[i]} | i < |b.nodes| && 2 <= |b.nodes[i]| ensures m <= Tmod(b.nodes[i][1].time, b.Shift(i)) {
      assert Between(b, i, h[i], -1, m);
    }
  }

  /** The last region: unknown from the end of time on. */
  function EndRegion(n: nat): VecEnt {
    VecEnt(MAX_TIME, seq(n, _ => AN_U))
  }

  ghost predicate EndsTime(v: VecEnt, n: nat) {
    v.time == MAX_TIME && |v.v| == n && forall i :: 0 <= i < n ==> v.v[i] == AN_U
  }

  /** Every region but the first begins where some bit changes. */
  ghost predicate AtChanges(b: Bits, R: seq<VecEnt>) {
    forall r {:trigger R[r]} :: 1 <= r < |R| ==> ChangesAt(b, R[r].time)
  }

  ghost predicate ChangesAt(b: Bits, m: int) {
    exists i: nat, k: nat {:trigger Moves(b, i, k, m)} :: i < |b.nodes| && Moves(b, i, k, m)
  }

  /** R is a merged history of b: regions from -1 on that are right up to the next one, and the last region. */
  ghost predicate MergeOf(b: Bits, R: seq<VecEnt>) {
    && 2 <= |R| && R[0].time == -1
    && EndsTime(R[|R| - 1], |b.nodes|)
    && Merged(b, R[..|R| - 1], MAX_TIME) && BeforeFirst(b, R[1].time) && AtChanges(b, R[..|R| - 1])
  }

  /**
    bits2vector: the regions' times do not decrease, and from -1 up to the end of time the last
    region at or before a time shows, for each bit, the code of its last change displayed by then.
   */
  method Bits2Vector(b: Bits) returns (R: seq<VecEnt>)
    requires WellFormed(b)
    ensures MergeOf(b, R)
  {
    var h := new nat[|b.nodes|](_ => 0);
    var last := -1;
    R := [];
    while true
      invariant Standing(b, h[..], last, last) && Merging(b, R, last, h[..])
      decreases Ahead(b, h[..])
    {
      ghost var h0 := h[..];
      var vadd, mintime := MergeStep(b, h, last);
      MergingStep(b, R, h0, vadd, mintime, h[..]);
      R := R + [vadd];
      last := mintime;
      if mintime == MAX_TIME {
        break;
      }
    }
    ghost var body := R;
    R := R + [EndRegion(|b.nodes|)];
    assert R[..|R| - 1] == body;
  }

  /** The merge so far: right up to last, from -1 on, and its second region is not late. */
  ghost predicate Merging(b: Bits, R: seq<VecEnt>, last: int, h: seq<nat>) {
    && Merged(b, R, last) && -1 <= last < MAX_TIME && AtChanges(b, R) && (R != [] ==> ChangesAt(b, last))
    && (R == [] ==> last == -1 && forall i :: 0 <= i < |h| ==> h[i] == 0)
    && (R != [] ==> R[0].time == -1 && BeforeFirst(b, if |R| == 1 then last else R[1].time))
  }

  lemma MergingStep(b: Bits, R: seq<VecEnt>, h: seq<nat>, v: VecEnt, next: int, h': seq<nat>)
    requires Merging(b, R, v.time, h) && Standing(b, h, v.time, next) && RegionOk(b, v, next) && next <= MAX_TIME
    requires next < MAX_TIME ==> ChangesAt(b, next)
    ensures Merged(b, R + [v], next) && AtChanges(b, R + [v])
    ensures (R + [v])[0].time == -1 && BeforeFirst(b, if |R| == 0 then next else (R + [v])[1].time)
    ensures next < MAX_TIME ==> Merging(b, R + [v], next, h')
  {
    MergedAppend(b, R, v, next);
    if R == [] {
      AtStart(b, h, next);
    }
  }

  /** At every time before the end the last region at or before it shows the value of each bit. */
  lemma RegionLookup(b: Bits, R: seq<VecEnt>, key: int)
    requires WellFormed(b) && MergeOf(b, R) && -1 <= key < MAX_TIME
    ensures Sorted(VecTimes(R))
    ensures var r := LastAt(VecTimes(R), key);
            && 0 <= r < |R| && |R[r].v| == |b.nodes|
            && forall i: nat {:trigger BitAt(b, i, key)} :: i < |b.nodes| && |b.nodes[i]| >= 1 ==> R[r].v[i] == BitAt(b, i, key)
  {
    MergedSorted(b, R);
    var t := VecTimes(R);
    var r := LastAt(t, key);
    LastAtNext(t, key);
    if r < 0 {
      assert false;
    } else {
      assert R[..|R| - 1][r] == R[r];
      assert r + 1 < |R| - 1 ==> R[..|R| - 1][r + 1] == R[r + 1];
    }
  }

  /** Entry k is displayed by key: its time is shifted unless it is that of an endcap; the head always is. */
  ghost predicate Due(h: seq<HistEnt>, shift: int, key: int, k: nat) {
    && k < |h|
    && (k == 0 || if 0 <= h[k].time < MAX_TIME - 2 then h[k].time + shift <= key else h[k].time <= key)
  }

  /** Code c is what the value val of a bit shows as. */
  ghost predicate ShowsAs(val: nat, invert: bool, c: nat) {
    if !invert then c == val % 16
    else
      && (val == 0 || val == '0' as nat ==> c == AN_1) && (val == 3 || val == '1' as nat ==> c == AN_0)
      && (val == 4 || val == 'h' as nat || val == 'H' as nat ==> c == AN_L)
      && (val == 7 || val == 'l' as nat || val == 'L' as nat ==> c == AN_H)
      && (val == 1 || val == 'x' as nat || val == 'X' as nat ==> c == AN_X)
      && (val == 2 || val == 'z' as nat || val == 'Z' as nat ==> c == AN_Z)
      && (val == 5 || val == 'u' as nat || val == 'U' as nat ==> c == AN_U)
      && (val == 6 || val == 'w' as nat || val == 'W' as nat ==> c == AN_W)
      && (8 <= val && (forall x {:trigger x as nat} :: x in "01xXzZuUwWhHlL" ==> val != x as nat) ==> c == val % 16)
  }

  /** The same in raw times: before the end the region shows, for bit i, the last entry k that is displayed by key. */
  lemma RegionShows(b: Bits, R: seq<VecEnt>, key: int, i: nat) returns (k: nat)
    requires WellFormed(b) && MergeOf(b, R) && 0 <= key < MAX_TIME - 2 && i < |b.nodes|
    ensures var h, shift := b.nodes[i], if b.attribs == [] then 0 else b.attribs[i].shift;
            Due(h, shift, key, k) && forall j: nat {:trigger Due(h, shift, key, j)} :: k < j ==> !Due(h, shift, key, j)
    ensures var r := LastAt(VecTimes(R), key);
            && 0 <= r < |R| && |R[r].v| == |b.nodes|
            && ShowsAs(b.nodes[i][k].val, b.attribs != [] && b.attribs[i].invert, R[r].v[i])
  {
    RegionLookup(b, R, key);
    assert R[LastAt(VecTimes(R), key)].v[i] == BitAt(b, i, key);
    k := LastDue(b.nodes[i], b.Shift(i), key);
    CodeShows(b.nodes[i][k].val, b.Invert(i));
  }

  lemma LastDue(h: seq<HistEnt>, shift: int, key: int) returns (k: nat)
    requires Shaped(h) && 0 <= key < MAX_TIME - 2
    ensures Due(h, shift, key, k) && forall j: nat {:trigger Due(h, shift, key, j)} :: k < j ==> !Due(h, shift, key, j)
    ensures k == LastAt(Shown(h, shift), key)
  {
    var t := Shown(h, shift);
    ShownSorted(h, shift);
    LastAtNext(t, key);
    assert t[0] <= key;
    k := LastAt(t, key);
    forall j: nat {:trigger Due(h, shift, key, j)} | k < j ensures !Due(h, shift, key, j) {
      if j < |h| {
        assert t[k + 1] <= t[j];
      }
    }
  }

  lemma CodeShows(val: nat, invert: bool)
    ensures ShowsAs(val, invert, Code(val, invert))
  {
  }

  lemma MergedSorted(b: Bits, R: seq<VecEnt>)
    requires MergeOf(b, R)
    ensures Sorted(VecTimes(R))
  {
    var t := VecTimes(R);
    forall i | 0 <= i < |t| - 1 ensures t[i] <= t[i + 1] {
      assert R[..|R| - 1][i] == R[i];
      assert i + 1 < |R| - 1 ==> R[..|R| - 1][i + 1] == R[i + 1];
    }
    StepsSorted(t);
  }

  lemma {:induction false} StepsSorted(t: seq<int>)
    requires forall i :: 0 <= i < |t| - 1 ==> t[i] <= t[i + 1]
    ensures Sorted(t)
  {
    if t != [] {
      var s := t[..|t| - 1];
      forall i | 0 <= i < |s| - 1 ensures s[i] <= s[i + 1] { assert t[i] <= t[i + 1]; }
      StepsSorted(s);
      forall i, j | 0 <= i <= j < |t| ensures t[i] <= t[j] {
        if j == |t| - 1 && i < j {
          assert s[i] <= s[|s| - 1] && t[|t| - 2] <= t[|t| - 1];
        } else if i < j {
          assert s[i] <= s[j];
        }
      }
    }
  }
}
