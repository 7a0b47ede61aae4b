/** Splitting a vector history into the histories of its bits, and joining them again. */
module Expand {
  import opened Waves
  import opened BitVec
  import opened Lookup

  datatype Option<+T> = None | Some(value: T)

  /** One entry of a vector node; special entries hold a real or a string. */
  datatype Change = Change(time: int, special: bool, v: seq<nat>)

  /** The window of displayed times. */
  datatype Window = Window(min: int, max: int) {
    predicate Has(t: int) {
      min <= t <= max
    }
  }

  /** Characters to codes; codes stay. */
  function Norm(val: nat): nat {
    if val == '0' as nat then AN_0
    else if val == '1' as nat then AN_1
    else if val == 'x' as nat || val == 'X' as nat then AN_X
    else if val == 'z' as nat || val == 'Z' as nat then AN_Z
    else if val == 'h' as nat || val == 'H' as nat then AN_H
    else if val == 'l' as nat || val == 'L' as nat then AN_L
    else if val == 'u' as nat || val == 'U' as nat then AN_U
    else if val == 'w' as nat || val == 'W' as nat then AN_W
    else if val == '-' as nat then AN_DASH
    else val
  }

  /** Code c stands for the character or code val. */
  ghost predicate StandsFor(val: nat, c: nat) {
    && (val == '0' as nat ==> c == AN_0) && (val == '1' as nat ==> c == AN_1)
    && (val == 'x' as nat || val == 'X' as nat ==> c == AN_X) && (val == 'z' as nat || val == 'Z' as nat ==> c == AN_Z)
    && (val == 'h' as nat || val == 'H' as nat ==> c == AN_H) && (val == 'l' as nat || val == 'L' as nat ==> c == AN_L)
    && (val == 'u' as nat || val == 'U' as nat ==> c == AN_U) && (val == 'w' as nat || val == 'W' as nat ==> c == AN_W)
    && (val == '-' as nat ==> c == AN_DASH) && (val <= 8 ==> c == val)
    && ((forall x {:trigger x as nat} :: x in "01xXzZhHlLuUwW-" ==> val != x as nat) ==> c % 16 == val % 16)
  }

  lemma NormStands(val: nat)
    ensures StandsFor(val, Norm(val)) && StandsFor(val, Norm(val) % AN_COUNT)
  {
  }

  function ChangeTimes(n: seq<Change>): (t: seq<int>)
    ensures |t| == |n| && forall i :: 0 <= i < |n| ==> t[i] == n[i].time
  {
    seq(|n|, i requires 0 <= i < |n| => n[i].time)
  }

  /** Bit j of n has a value in every displayed entry. */
  ghost predicate HasBit(n: seq<Change>, w: Window, j: nat) {
    forall i :: 0 <= i < |n| && w.Has(n[i].time) ==> j < |n[i].v|
  }

  /** What an entry says about bit j: unknown outside the window. */
  function Says(e: Change, w: Window, j: nat): (c: nat)
    requires w.Has(e.time) ==> j < |e.v|
    ensures if w.Has(e.time) then StandsFor(e.v[j], c) else c == AN_X
  {
    if w.Has(e.time) then Norm(e.v[j]) else AN_X
  }

  /** The next entry of a split bit; an unchanged displayed value adds none. */
  function Extend(h: seq<HistEnt>, e: Change, w: Window, j: nat): seq<HistEnt>
    requires w.Has(e.time) ==> j < |e.v|
  {
    if w.Has(e.time) && h != [] && h[|h| - 1].val == Norm(e.v[j]) then h
    else h + [HistEnt(e.time, Says(e, w, j))]
  }

  function ExpandBit(n: seq<Change>, w: Window, j: nat): (h: seq<HistEnt>)
    requires HasBit(n, w, j)
    ensures n != [] ==> h != []
  {
    if n == [] then [] else Extend(ExpandBit(n[..|n| - 1], w, j), n[|n| - 1], w, j)
  }

  /** At time t history h says what node n says about bit j. */
  ghost predicate SaysSame(n: seq<Change>, w: Window, j: nat, h: seq<HistEnt>, t: int)
    requires HasBit(n, w, j)
  {
    var k, i := LastAt(Times(h), t), LastAt(ChangeTimes(n), t);
    0 <= k && 0 <= i && h[k].val == Says(n[i], w, j)
  }

  /** h starts and ends as n does. */
  ghost predicate SpansSame(n: seq<Change>, w: Window, j: nat, h: seq<HistEnt>)
    requires n != [] && HasBit(n, w, j)
  {
    && h != [] && Sorted(Times(h)) && h[0].time == n[0].time
    && h[|h| - 1].time <= n[|n| - 1].time && h[|h| - 1].val == Says(n[|n| - 1], w, j)
  }

  lemma SplitSame(m: seq<Change>, e: Change, w: Window, j: nat, h: seq<HistEnt>, t: int)
    requires m != [] && HasBit(m + [e], w, j) && HasBit(m, w, j) && (w.Has(e.time) ==> j < |e.v|)
    requires m[|m| - 1].time <= e.time
    requires SpansSame(m, w, j, h) && SaysSame(m, w, j, h, t) && h[|h| - 1].val == Says(e, w, j)
    ensures SpansSame(m + [e], w, j, h) && SaysSame(m + [e], w, j, h, t)
  {
    assert ChangeTimes(m + [e])[..|m|] == ChangeTimes(m);
  }

  lemma SplitMore(m: seq<Change>, e: Change, w: Window, j: nat, h: seq<HistEnt>, t: int)
    requires m != [] && HasBit(m + [e], w, j) && HasBit(m, w, j) && (w.Has(e.time) ==> j < |e.v|)
    requires m[|m| - 1].time <= e.time
    requires SpansSame(m, w, j, h) && SaysSame(m, w, j, h, t)
    ensures var h' := h + [HistEnt(e.time, Says(e, w, j))]; SpansSame(m + [e], w, j, h') && SaysSame(m + [e], w, j, h', t)
  {
    var x := HistEnt(e.time, Says(e, w, j));
    var h', n := h + [x], m + [e];
    TimesMore(h, x);
    SaysMore(m, e, w, j, h, x, h', n, t);
    assert SpansSame(n, w, j, h');
  }

  lemma SaysMore(m: seq<Change>, e: Change, w: Window, j: nat, h: seq<HistEnt>, x: HistEnt, h': seq<HistEnt>, n: seq<Change>, t: int)
    requires h' == h + [x] && n == m + [e] && HasBit(n, w, j) && HasBit(m, w, j) && (w.Has(e.time) ==> j < |e.v|)
    requires x == HistEnt(e.time, Says(e, w, j)) && SaysSame(m, w, j, h, t)
    ensures SaysSame(n, w, j, h', t)
  {
    assert ChangeTimes(n) == ChangeTimes(m) + [e.time] && Times(h') == Times(h) + [e.time];
    LastMore(ChangeTimes(m), e.time, ChangeTimes(n), t);
    LastMore(Times(h), e.time, Times(h'), t);
  }

  lemma TimesMore(h: seq<HistEnt>, x: HistEnt)
    requires h != [] && Sorted(Times(h)) && h[|h| - 1].time <= x.time
    ensures Sorted(Times(h + [x]))
  {
    var t := Times(h + [x]);
    forall a, b | 0 <= a <= b < |t| ensures t[a] <= t[b] {
      assert a < |h| ==> Times(h)[a] <= Times(h)[|h| - 1];
    }
  }

  lemma LastMore(t: seq<int>, x: int, u: seq<int>, key: int)
    requires u == t + [x]
    ensures LastAt(u, key) == if x <= key then |t| else LastAt(t, key)
  {
    assert u[..|u| - 1] == t;
  }

  /** At every time the split bit says what the whole node says about it. */
  lemma {:induction false} ExpandBitSays(n: seq<Change>, w: Window, j: nat, t: int)
    requires n != [] && Sorted(ChangeTimes(n)) && n[0].time <= t && HasBit(n, w, j)
    ensures SpansSame(n, w, j, ExpandBit(n, w, j)) && SaysSame(n, w, j, ExpandBit(n, w, j), t)
  {
    var m, e := n[..|n| - 1], n[|n| - 1];
    assert n == m + [e];
    if m == [] {
      assert ExpandBit(m, w, j) == [];
      SplitFirst(e, w, j, t);
    } else {
      assert ChangeTimes(m) == ChangeTimes(n)[..|n| - 1];
      assert m[|m| - 1].time <= e.time by { assert ChangeTimes(n)[|m| - 1] <= ChangeTimes(n)[|n| - 1]; }
      ExpandBitSays(m, w, j, t);
      SplitStep(m, e, w, j, ExpandBit(m, w, j), t);
    }
  }

  lemma SplitFirst(e: Change, w: Window, j: nat, t: int)
    requires (w.Has(e.time) ==> j < |e.v|) && e.time <= t
    ensures SpansSame([e], w, j, Extend([], e, w, j)) && SaysSame([e], w, j, Extend([], e, w, j), t)
  {
  }

  lemma SplitStep(m: seq<Change>, e: Change, w: Window, j: nat, h: seq<HistEnt>, t: int)
    requires m != [] && HasBit(m + [e], w, j) && HasBit(m, w, j) && (w.Has(e.time) ==> j < |e.v|)
    requires m[|m| - 1].time <= e.time && SpansSame(m, w, j, h) && SaysSame(m, w, j, h, t)
    ensures SpansSame(m + [e], w, j, Extend(h, e, w, j)) && SaysSame(m + [e], w, j, Extend(h, e, w, j), t)
  {
    if w.Has(e.time) && h[|h| - 1].val == Norm(e.v[j]) {
      SplitSame(m, e, w, j, h, t);
    } else {
      SplitMore(m, e, w, j, h, t);
    }
  }

  /* ---------- the two operations ---------- */

  /** A vector node; an array of entries stands for its history list. */
  datatype VectorNode = VectorNode(extvals: bool, msi: int, lsi: int, hist: seq<Change>) {
    function Width(): nat {
      if msi > lsi then msi - lsi + 1 else lsi - msi + 1
    }

    predicate Special() {
      exists i :: 0 <= i < |hist| && hist[i].special
    }

    /** Every displayed entry has all the bits, and the first entry is before the window. */
    ghost predicate Displayable(w: Window) {
      hist != [] && !w.Has(hist[0].time) && forall j: nat {:trigger HasBit(hist, w, j)} :: j < Width() ==> HasBit(hist, w, j)
    }
  }

  /** The pieces of a node and the index each has in the node's declared range. */
  datatype ExpandInfo = ExpandInfo(narray: seq<seq<HistEnt>>, actual: seq<int>)

  method HasSpecial(hist: seq<Change>) returns (s: bool)
    ensures s <==> exists i :: 0 <= i < |hist| && hist[i].special
  {
    for i := 0 to |hist|
      invariant forall k :: 0 <= k < i ==> !hist[k].special
    {
      if hist[i].special {
        return true;
      }
    }
    return false;
  }

  /** One pass of the outer loop: entry e is distributed over the pieces. */
  method ExpandEntry(narray: array<seq<HistEnt>>, e: Change, w: Window)
    requires w.Has(e.time) ==> narray.Length <= |e.v| && forall j :: 0 <= j < narray.Length ==> narray[j] != []
    modifies narray
    ensures forall j {:trigger narray[j]} :: 0 <= j < narray.Length ==> narray[j] == Extend(old(narray[j]), e, w, j)
  {
    if e.time < w.min || e.time > w.max {
      for j := 0 to narray.Length
        invariant forall k {:trigger narray[k]} :: 0 <= k < j ==> narray[k] == Extend(old(narray[k]), e, w, k)
        invariant forall k {:trigger narray[k]} :: j <= k < narray.Length ==> narray[k] == old(narray[k])
      {
        narray[j] := narray[j] + [HistEnt(e.time, AN_X)];
      }
    } else {
      for j := 0 to narray.Length
        invariant forall k {:trigger narray[k]} :: 0 <= k < j ==> narray[k] == Extend(old(narray[k]), e, w, k)
        invariant forall k {:trigger narray[k]} :: j <= k < narray.Length ==> narray[k] == old(narray[k])
      {
        var val := Norm(e.v[j]);
        if narray[j][|narray[j]| - 1].val != val {
          narray[j] := narray[j] + [HistEnt(e.time, val)];
        }
      }
    }
  }

  /** Splitting works for vector nodes without real or string entries; it gives each bit its own history. */
  method ExpandNode(n: VectorNode, w: Window) returns (r: Option<ExpandInfo>)
    requires n.extvals && !n.Special() ==> n.Displayable(w)
    ensures r.None? <==> !n.extvals || n.Special()
    ensures r.Some? ==>
      && |r.value.narray| == |r.value.actual| == n.Width()
      && (forall j: nat {:trigger r.value.narray[j]} :: j < n.Width() ==> HasBit(n.hist, w, j) && r.value.narray[j] == ExpandBit(n.hist, w, j))
      && (forall j: nat {:trigger r.value.narray[j]} :: j < n.Width() ==> EndsAs(n.hist[|n.hist| - 1], w, j, r.value.narray[j]))
      && (forall j: nat {:trigger r.value.actual[j]} :: j < n.Width() ==> r.value.actual[j] == if n.msi > n.lsi then n.msi - j else n.msi + j)
  {
    if !n.extvals {
      return None;
    }
    var special := HasSpecial(n.hist);
    if special {
      return None;
    }
    var actual := ActualBits(n);
    var narray := new seq<HistEnt>[n.Width()](_ => []);
    for i := 0 to |n.hist|
      invariant Expanded(n, w, i, narray[..])
    {
      ghost var before := narray[..];
      ExpandedReady(n, w, i, before);
      ExpandEntry(narray, n.hist[i], w);
      ExpandedNext(n, w, i, before, narray[..]);
    }
    assert n.hist[..|n.hist|] == n.hist;
    forall j: nat {:trigger narray[j]} | j < n.Width() ensures EndsAs(n.hist[|n.hist| - 1], w, j, narray[j]) {
      assert narray[j] == narray[..][j];
      PieceEnds(n.hist, w, j);
    }
    r := Some(ExpandInfo(narray[..], actual));
  }

  /** A displayed entry brings another value than the one before it. */
  ghost predicate Tight(h: seq<HistEnt>, w: Window) {
    forall k {:trigger h[k]} :: 1 <= k < |h| && w.Has(h[k].time) ==> h[k].val != h[k - 1].val
  }

  lemma TightMore(h: seq<HistEnt>, e: Change, w: Window, j: nat)
    requires Tight(h, w) && (w.Has(e.time) ==> j < |e.v|)
    ensures Tight(Extend(h, e, w, j), w)
  {
  }

  lemma {:induction false} PieceTight(n: seq<Change>, w: Window, j: nat)
    requires HasBit(n, w, j)
    ensures Tight(ExpandBit(n, w, j), w)
  {
    if n != [] {
      PieceTight(n[..|n| - 1], w, j);
      TightMore(ExpandBit(n[..|n| - 1], w, j), n[|n| - 1], w, j);
    }
  }

  /** A piece ends with what the last entry says: its bit, if the entry is displayed, and X otherwise. */
  ghost predicate EndsAs(e: Change, w: Window, j: nat, h: seq<HistEnt>) {
    && h != []
    && if w.Has(e.time) then j < |e.v| && StandsFor(e.v[j], h[|h| - 1].val) else h[|h| - 1] == HistEnt(e.time, AN_X)
  }

  lemma PieceEnds(n: seq<Change>, w: Window, j: nat)
    requires n != [] && HasBit(n, w, j)
    ensures EndsAs(n[|n| - 1], w, j, ExpandBit(n, w, j))
  {
    var e := n[|n| - 1];
    if w.Has(e.time) {
      NormStands(e.v[j]);
    }
  }

  method ActualBits(n: VectorNode) returns (actual: seq<int>)
    ensures |actual| == n.Width()
    ensures forall j: nat {:trigger actual[j]} :: j < n.Width() ==> actual[j] == if n.msi > n.lsi then n.msi - j else n.msi + j
  {
    var delta := if n.msi > n.lsi then -1 else 1;
    var bit := n.msi;
    actual := [];
    for i := 0 to n.Width()
      invariant |actual| == i && bit == n.msi + delta * i
      invariant forall j: nat {:trigger actual[j]} :: j < i ==> actual[j] == n.msi + delta * j
    {
      actual := actual + [bit];
      bit := bit + delta;
    }
  }

  /** The pieces after the first i entries. */
  ghost predicate Expanded(n: VectorNode, w: Window, i: nat, a: seq<seq<HistEnt>>)
    requires i <= |n.hist|
  {
    && |a| == n.Width()
    && forall j: nat {:trigger a[j]} :: j < |a| ==> HasBit(n.hist[..i], w, j) && a[j] == ExpandBit(n.hist[..i], w, j)
  }

  lemma BitNext(n: VectorNode, w: Window, i: nat, j: nat)
    requires n.Displayable(w) && i < |n.hist| && j < n.Width()
    ensures HasBit(n.hist[..i], w, j) && HasBit(n.hist[..i + 1], w, j)
    ensures w.Has(n.hist[i].time) ==> j < |n.hist[i].v| && i > 0
    ensures ExpandBit(n.hist[..i + 1], w, j) == Extend(ExpandBit(n.hist[..i], w, j), n.hist[i], w, j)
  {
    assert HasBit(n.hist, w, j);
    assert n.hist[..i + 1][..i] == n.hist[..i];
  }

  lemma ExpandedReady(n: VectorNode, w: Window, i: nat, a: seq<seq<HistEnt>>)
    requires n.Displayable(w) && i < |n.hist| && Expanded(n, w, i, a)
    ensures w.Has(n.hist[i].time) ==> n.Width() <= |n.hist[i].v| && forall j :: 0 <= j < |a| ==> a[j] != []
  {
    BitNext(n, w, i, n.Width() - 1);
  }

  lemma ExpandedNext(n: VectorNode, w: Window, i: nat, a: seq<seq<HistEnt>>, a': seq<seq<HistEnt>>)
    requires n.Displayable(w) && i < |n.hist| && Expanded(n, w, i, a) && |a'| == |a|
    requires w.Has(n.hist[i].time) ==> n.Width() <= |n.hist[i].v|
    requires forall j: nat {:trigger a'[j]} :: j < |a| ==> a'[j] == Extend(a[j], n.hist[i], w, j)
    ensures Expanded(n, w, i + 1, a')
  {
    forall j: nat {:trigger a'[j]} | j < |a'| ensures HasBit(n.hist[..i + 1], w, j) && a'[j] == ExpandBit(n.hist[..i + 1], w, j) {
      BitNext(n, w, i, j);
      assert a[j] == ExpandBit(n.hist[..i], w, j);
    }
  }

  /** One bit of a node: the same piece, or nothing for a bit outside the declared range. */
  method ExtractNodeSingleBit(n: VectorNode, bit: int, w: Window) returns (r: Option<seq<HistEnt>>)
    requires n.extvals && 0 <= bit < n.Width() && !n.Special() ==> n.Displayable(w)
    ensures r.None? <==> !n.extvals || !(0 <= bit < n.Width()) || n.Special()
    ensures r.Some? ==> HasBit(n.hist, w, bit) && r.value == ExpandBit(n.hist, w, bit) && EndsAs(n.hist[|n.hist| - 1], w, bit, r.value)
  {
    if !n.extvals {
      return None;
    }
    var rgh, lft, actual;
    if n.lsi > n.msi {
      rgh, lft, actual := n.lsi, n.msi, n.msi + bit;
    } else {
      rgh, lft, actual := n.msi, n.lsi, n.msi - bit;
    }
    if actual > rgh || actual < lft {
      return None;
    }
    var special := HasSpecial(n.hist);
    if special {
      return None;
    }
    var h: seq<HistEnt> := [];
    assert HasBit(n.hist, w, bit);
    for i := 0 to |n.hist|
      invariant HasBit(n.hist[..i], w, bit) && h == ExpandBit(n.hist[..i], w, bit)
    {
      BitNext(n, w, i, bit);
      var e := n.hist[i];
      if e.time < w.min || e.time > w.max {
        h := h + [HistEnt(e.time, AN_X)];
      } else {
        var val := Norm(e.v[bit]);
        if h[|h| - 1].val != val {
          h := h + [HistEnt(e.time, val)];
        }
      }
    }
    assert n.hist[..|n.hist|] == n.hist;
    PieceEnds(n.hist, w, bit);
    r := Some(h);
  }

  /* ---------- joining the pieces again ---------- */

  /** A history as the loaders build it: from -2 and -1 on, up to the end of time. */
  ghost predicate LoadedVector(hist: seq<Change>) {
    && 2 <= |hist| && Sorted(ChangeTimes(hist))
    && hist[0].time == -2 && hist[1].time == -1 && hist[|hist| - 1].time == MAX_TIME
  }

  lemma {:induction false} ExpandBitShaped(n: seq<Change>, w: Window, j: nat)
    requires n != [] && Sorted(ChangeTimes(n)) && HasBit(n, w, j)
    requires forall k :: 1 <= k < |n| ==> -1 <= n[k].time <= MAX_TIME
    ensures Shaped(ExpandBit(n, w, j))
  {
    if |n| > 1 {
      var m, e := n[..|n| - 1], n[|n| - 1];
      assert ChangeTimes(m) == ChangeTimes(n)[..|n| - 1];
      assert m[|m| - 1].time <= e.time by { assert ChangeTimes(n)[|m| - 1] <= ChangeTimes(n)[|m|]; }
      ExpandBitShaped(m, w, j);
      ExpandBitSays(m, w, j, n[0].time);
      ShapedMore(ExpandBit(m, w, j), e, w, j, m[|m| - 1].time);
    } else {
      assert n[..|n| - 1] == [];
    }
  }

  lemma ShapedMore(h: seq<HistEnt>, e: Change, w: Window, j: nat, last: int)
    requires Shaped(h) && Sorted(Times(h)) && h[|h| - 1].time <= last <= e.time && -1 <= e.time <= MAX_TIME
    requires w.Has(e.time) ==> j < |e.v|
    ensures Shaped(Extend(h, e, w, j))
  {
    assert forall a :: 0 <= a < |h| ==> Times(h)[a] <= Times(h)[|h| - 1];
  }

  /** The entry in force at key: displayed, and the last one at or before it. */
  ghost predicate InForce(hist: seq<Change>, w: Window, key: int, i: nat) {
    && i < |hist| && w.Has(hist[i].time) && hist[i].time <= key
    && forall k {:trigger hist[k]} :: i < k < |hist| ==> key < hist[k].time
  }

  /** These are the histories of the bits of a split node. */
  ghost predicate PiecesOf(n: VectorNode, w: Window, b: Bits) {
    && |b.nodes| == n.Width() && b.attribs == []
    && forall j: nat {:trigger b.nodes[j]} :: j < n.Width() ==> HasBit(n.hist, w, j) && b.nodes[j] == ExpandBit(n.hist, w, j)
  }

  /**
    Any merge of the pieces of a split node gives back the node: at every time from the first
    displayed entry to the end of the window, the last region at or before it has the value of the
    entry in force in every bit.
   */
  lemma ExpandThenJoin(n: VectorNode, w: Window, b: Bits, R: seq<VecEnt>, key: int) returns (i: nat)
    requires LoadedVector(n.hist) && n.Displayable(w) && PiecesOf(n, w, b) && MergeOf(b, R)
    requires 0 <= w.min <= w.max < MAX_TIME && key <= w.max
    requires exists f :: 0 <= f < |n.hist| && w.Has(n.hist[f].time) && n.hist[f].time <= key
    ensures InForce(n.hist, w, key, i)
    ensures var r := LastAt(VecTimes(R), key);
            && 0 <= r < |R| && |R[r].v| == n.Width() <= |n.hist[i].v|
            && forall j: nat {:trigger R[r].v[j]} :: j < n.Width() ==>
                 R[r].v[j] == Norm(n.hist[i].v[j]) % AN_COUNT && StandsFor(n.hist[i].v[j], R[r].v[j])
  {
    PiecesWellFormed(n, w, b, key);
    RegionLookup(b, R, key);
    i := CurrentEntry(n.hist, w, key);
    var r := LastAt(VecTimes(R), key);
    assert HasBit(n.hist, w, n.Width() - 1);
    forall j: nat {:trigger R[r].v[j]} | j < n.Width()
      ensures R[r].v[j] == Norm(n.hist[i].v[j]) % AN_COUNT && StandsFor(n.hist[i].v[j], R[r].v[j])
    {
      NormStands(n.hist[i].v[j]);
      assert HasBit(n.hist, w, j) && BitAt(b, j, key) == Says(n.hist[i], w, j) % AN_COUNT;
    }
  }

  /** The split and the merge one after the other. */
  method SplitAndMerge(n: VectorNode, w: Window) returns (b: Bits, R: seq<VecEnt>)
    requires n.extvals && !n.Special() && LoadedVector(n.hist) && n.Displayable(w)
    ensures PiecesOf(n, w, b) && MergeOf(b, R)
  {
    var r := ExpandNode(n, w);
    b := Bits(r.value.narray, []);
    PiecesWellFormed(n, w, b, 0);
    R := Bits2Vector(b);
  }

  lemma PiecesWellFormed(n: VectorNode, w: Window, b: Bits, key: int)
    requires LoadedVector(n.hist) && n.Displayable(w) && 0 <= key
    requires PiecesOf(n, w, b)
    ensures WellFormed(b) && 0 <= LastAt(ChangeTimes(n.hist), key)
    ensures forall j: nat {:trigger BitAt(b, j, key)} :: j < n.Width() ==>
      HasBit(n.hist, w, j) && BitAt(b, j, key) == Says(n.hist[LastAt(ChangeTimes(n.hist), key)], w, j) % AN_COUNT
  {
    assert ChangeTimes(n.hist)[0] == -2;
    LastAtNext(ChangeTimes(n.hist), key);
    forall j: nat {:trigger b.nodes[j]} | j < n.Width() ensures Shaped(b.nodes[j])
      ensures HasBit(n.hist, w, j) && BitAt(b, j, key) == Says(n.hist[LastAt(ChangeTimes(n.hist), key)], w, j) % AN_COUNT
    {
      PieceSays(n.hist, w, b, j, key);
    }
  }

  lemma PieceSays(hist: seq<Change>, w: Window, b: Bits, j: nat, key: int)
    requires LoadedVector(hist) && 0 <= key && HasBit(hist, w, j)
    requires j < |b.nodes| && b.attribs == [] && b.nodes[j] == ExpandBit(hist, w, j)
    ensures Shaped(b.nodes[j]) && 0 <= LastAt(ChangeTimes(hist), key)
    ensures BitAt(b, j, key) == Says(hist[LastAt(ChangeTimes(hist), key)], w, j) % AN_COUNT
  {
    forall k | 1 <= k < |hist| ensures -1 <= hist[k].time <= MAX_TIME {
      assert ChangeTimes(hist)[1] <= ChangeTimes(hist)[k] <= ChangeTimes(hist)[|hist| - 1];
    }
    ExpandBitShaped(hist, w, j);
    ExpandBitSays(hist, w, j, key);
    UnshiftedBitAt(b, j, key);
  }

  /** From the first displayed entry on, the last entry at or before a time in the window is displayed. */
  lemma CurrentEntry(hist: seq<Change>, w: Window, key: int) returns (i: nat)
    requires Sorted(ChangeTimes(hist)) && key <= w.max
    requires exists f :: 0 <= f < |hist| && w.Has(hist[f].time) && hist[f].time <= key
    ensures InForce(hist, w, key, i) && i == LastAt(ChangeTimes(hist), key)
  {
    var f :| 0 <= f < |hist| && w.Has(hist[f].time) && hist[f].time <= key;
    var t := ChangeTimes(hist);
    LastAtNext(t, key);
    assert t[f] <= key;
    i := LastAt(t, key);
    assert t[f] <= t[i];
    forall k {:trigger hist[k]} | i < k < |hist| ensures key < hist[k].time {
      assert t[i + 1] <= t[k];
    }
  }
}
