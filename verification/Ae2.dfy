/** The cycle-driven reader: facilities wait in one bucket per cycle for their next change. */
module Ae2 {
  /** What the reader library knows: the selected facilities, their values and their change cycles. */
  datatype Waves = Waves(sel: seq<bool>, val: (nat, int) -> string, changes: (nat, int) -> bool)

  /** One call of the callback. */
  datatype Emit = Emit(cycle: int, fac: nat, value: string)

  /** The first change from cycle x on up to hi, or -1. */
  function FirstChange(w: Waves, i: nat, x: int, hi: int): (n: int)
    requires 0 <= x
    ensures n == -1 || (x <= n <= hi && w.changes(i, n))
    ensures forall y :: x <= y <= hi && (n == -1 || y < n) ==> !w.changes(i, y)
    decreases hi - x
  {
    if x > hi then -1 else if w.changes(i, x) then x else FirstChange(w, i, x + 1, hi)
  }

  /** The library's next change behind cycle c in the section, or c when there is none. */
  function Next(w: Waves, i: nat, c: int, hi: int): (n: int)
    requires 0 <= c
    ensures n == c || (c < n <= hi && w.changes(i, n))
    ensures forall y :: c < y <= hi && (n == c || y < n) ==> !w.changes(i, y)
  {
    var n := FirstChange(w, i, c + 1, hi);
    if n == -1 then c else n
  }

  /** Values differ only where there is a change. */
  ghost predicate Steady(w: Waves, lo: int, hi: int) {
    forall i: nat, c {:trigger w.changes(i, c)} :: i < |w.sel| && lo < c <= hi && !w.changes(i, c) ==> w.val(i, c) == w.val(i, c - 1)
  }

  /* ---------- intrusive lists over an array of links ---------- */

  /** The links lead from h through the facilities of l to the end. */
  ghost predicate Chain(nx: seq<int>, h: int, l: seq<nat>)
    decreases l
  {
    if l == [] then h == -1
    else h == l[0] && l[0] < |nx| && Chain(nx, nx[l[0]], l[1..])
  }

  ghost predicate NoDup(l: seq<nat>) {
    forall i, j {:trigger l[i], l[j]} :: 0 <= i < j < |l| ==> l[i] != l[j]
  }

  /** List l with head h holds exactly the facilities whose place is p, each once. */
  ghost predicate ListAt(nx: seq<int>, loc: seq<int>, h: int, l: seq<nat>, p: int) {
    && Chain(nx, h, l) && NoDup(l) && |nx| == |loc|
    && forall i: nat {:trigger loc[i]} :: i < |loc| ==> (i in l <==> loc[i] == p)
  }

  lemma {:induction false} ChainFrame(nx: seq<int>, h: int, l: seq<nat>, i: nat, v: int)
    requires Chain(nx, h, l) && i !in l && i < |nx|
    ensures Chain(nx[i := v], h, l)
    decreases l
  {
    if l != [] {
      ChainFrame(nx, nx[l[0]], l[1..], i, v);
    }
  }

  lemma {:induction false} ChainIn(nx: seq<int>, h: int, l: seq<nat>)
    requires Chain(nx, h, l)
    ensures forall x :: x in l ==> x < |nx|
    decreases l
  {
    if l != [] {
      ChainIn(nx, nx[l[0]], l[1..]);
      assert l == [l[0]] + l[1..];
    }
  }

  /** Facility i moves to place p; the list of another place stays as it is. */
  lemma OtherKept(nx: seq<int>, loc: seq<int>, h: int, l: seq<nat>, q: int, i: nat, v: int, p: int)
    requires ListAt(nx, loc, h, l, q) && i < |loc| && loc[i] != q && p != q
    ensures ListAt(nx[i := v], loc[i := p], h, l, q)
  {
    ChainFrame(nx, h, l, i, v);
  }

  /** It is put in front of the list of its new place. */
  lemma Pushed(nx: seq<int>, loc: seq<int>, h: int, l: seq<nat>, i: nat, p: int)
    requires ListAt(nx, loc, h, l, p) && i < |loc| && loc[i] != p
    ensures ListAt(nx[i := h], loc[i := p], i, [i] + l, p)
  {
    ChainFrame(nx, h, l, i, h);
    assert ([i] + l)[1..] == l;
  }

  /** And it leaves the front of the list it was taken from. */
  lemma Popped(nx: seq<int>, loc: seq<int>, i: nat, l: seq<nat>, q: int, v: int, p: int)
    requires ListAt(nx, loc, i, l, q) && l != [] && p != q
    ensures i < |nx| && l[0] == i && loc[i] == q && ListAt(nx[i := v], loc[i := p], nx[i], l[1..], q)
  {
    assert l == [i] + l[1..];
    assert i !in l[1..];
    ChainFrame(nx, nx[i], l[1..], i, v);
  }

  /* ---------- the buckets of one section ---------- */

  /** The lists of the places behind o, one per offset, and the deadlist, whose place is -1. */
  ghost predicate Lists(nx: seq<int>, loc: seq<int>, heads: seq<int>, b: seq<seq<nat>>, o: int, dead: int, d: seq<nat>) {
    && |heads| == |b| && -1 <= o
    && (forall p {:trigger b[p]} :: o < p < |b| ==> ListAt(nx, loc, heads[p], b[p], p))
    && ListAt(nx, loc, dead, d, -1)
  }

  /** Where facility i belongs before cycle s is handled, and what its value buffer holds. */
  ghost predicate PendingAt(w: Waves, cyc: int, ecyc: int, s: int, loc: seq<int>, mv: seq<string>, i: nat)
    requires i < |loc| == |mv| == |w.sel| && 0 < s
  {
    if !w.sel[i] then loc[i] == -2
    else
      var n := Next(w, i, s - 1, ecyc);
      mv[i] == w.val(i, n) && loc[i] == if n == s - 1 then -1 else n - cyc
  }

  /** A facility that is done belongs where it will be before cycle s + 1. */
  ghost predicate PendingIn(w: Waves, cyc: int, ecyc: int, s: int, loc: seq<int>, mv: seq<string>, done: set<nat>, i: nat)
    requires i < |loc| == |mv| == |w.sel| && 0 < s
  {
    PendingAt(w, cyc, ecyc, if i in done then s + 1 else s, loc, mv, i)
  }

  ghost predicate PendingTo(w: Waves, cyc: int, ecyc: int, s: int, loc: seq<int>, mv: seq<string>, done: set<nat>) {
    && 0 < s && |loc| == |mv| == |w.sel|
    && forall i: nat {:trigger PendingIn(w, cyc, ecyc, s, loc, mv, done, i)} :: i < |loc| ==> PendingIn(w, cyc, ecyc, s, loc, mv, done, i)
  }

  /** The state of the scheduler. */
  class Scheduler {
    const w: Waves
    /** The links of the facilities' list entries, and the list heads by cycle offset. */
    const next: array<int>
    const autosort: array<int>
    var deadlist: int
    /** The value last read for each facility. */
    const mv: array<string>
    ghost var loc: seq<int>
    ghost var b: seq<seq<nat>>
    ghost var d: seq<nat>

    constructor (w: Waves, next: array<int>, autosort: array<int>, mv: array<string>)
      requires next.Length == |w.sel| && forall p :: 0 <= p < autosort.Length ==> autosort[p] == -1
      ensures this.w == w && this.next == next && this.autosort == autosort && this.mv == mv
      ensures deadlist == -1 && loc == seq(|w.sel|, _ => -2) && d == []
      ensures Lists(next[..], loc, autosort[..], b, -1, deadlist, d)
    {
      this.w, this.next, this.autosort, this.mv := w, next, autosort, mv;
      deadlist := -1;
      loc, b, d := seq(|w.sel|, _ => -2), seq(autosort.Length, _ => []), [];
    }

    ghost predicate Shaped()
      reads this, next, autosort, mv
    {
      && next.Length == mv.Length == |w.sel| == |loc| && |b| == autosort.Length
      && next != autosort
    }

    /** Facility i, taken from no list or from the front of the current one, goes where it belongs next. */
    method Put(i: nat, ncyc: int, c: int, cyc: int, ghost o: int, ghost rest: seq<nat>)
      requires Shaped() && i < |w.sel| && 0 <= o && c - cyc == o && o <= ncyc - cyc < autosort.Length
      requires Lists(next[..], loc, autosort[..], b, o, deadlist, d) && loc[i] <= o && loc[i] != -1
      requires rest != [] ==> ListAt(next[..], loc, i, rest, o)
      modifies this`deadlist, this`loc, this`b, this`d, next, autosort
      ensures Shaped() && loc == old(loc)[i := if ncyc == c then -1 else ncyc - cyc]
      ensures d == if ncyc == c then [i] + old(d) else old(d)
      ensures b == if ncyc == c then old(b) else old(b)[ncyc - cyc := [i] + old(b)[ncyc - cyc]]
      ensures Lists(next[..], loc, autosort[..], b, o, deadlist, d)
      ensures rest != [] ==> ListAt(next[..], loc, old(next[i]), rest[1..], o)
    {
      ghost var nx, lc, hd := next[..], loc, autosort[..];
      if ncyc != c {
        var offset := ncyc - cyc;
        next[i] := autosort[offset];
        autosort[offset] := i;
        PutInBucket(nx, lc, hd, b, o, deadlist, d, i, offset);
        if rest != [] { Popped(nx, lc, i, rest, o, hd[offset], offset); }
        b := b[offset := [i] + b[offset]];
        loc := loc[i := offset];
        assert next[..] == nx[i := hd[offset]] && autosort[..] == hd[offset := i];
      } else {
        next[i] := deadlist;
        PutAway(nx, lc, hd, b, o, deadlist, d, i);
        if rest != [] { Popped(nx, lc, i, rest, o, deadlist, -1); }
        assert next[..] == nx[i := deadlist];
        deadlist := i;
        d := [i] + d;
        loc := loc[i := -1];
      }
    }

    /** The library's answer about the change behind cycle c; the value buffer then holds the value there. */
    method ReadNext(i: nat, c: int, ghost cyc: int, ecyc: int) returns (ncyc: int)
      requires Shaped() && i < |w.sel| && 0 <= cyc <= c <= ecyc && mv[i] == w.val(i, c)
      modifies mv
      ensures ncyc == Next(w, i, c, ecyc) && mv[..] == old(mv[..])[i := w.val(i, ncyc)]
    {
      ncyc := Next(w, i, c, ecyc);
      if ncyc != c {
        mv[i] := w.val(i, ncyc);
      }
      assert mv[..] == old(mv[..])[i := w.val(i, ncyc)];
    }

    /** One facility of the bucket of cycle s: it is reported and moves to its next change. */
    method Visit(t: int, s: int, cyc: int, ecyc: int, ghost o: int, ghost rest: seq<nat>, ghost done: set<nat>) returns (e: Emit, tn: int)
      requires Shaped() && 0 <= cyc < s <= ecyc && o == s - cyc && autosort.Length == ecyc - cyc + 1
      requires Lists(next[..], loc, autosort[..], b, o, deadlist, d) && ListAt(next[..], loc, t, rest, o) && rest != []
      requires PendingTo(w, cyc, ecyc, s, loc, mv[..], done)
      modifies this`deadlist, this`loc, this`b, this`d, next, autosort, mv
      ensures Shaped() && Lists(next[..], loc, autosort[..], b, o, deadlist, d) && ListAt(next[..], loc, tn, rest[1..], o)
      ensures PendingTo(w, cyc, ecyc, s, loc, mv[..], done + {rest[0]})
      ensures e == Emit(s, rest[0], w.val(rest[0], s)) && rest[0] !in done
    {
      tn := next[t];
      var i: nat := t;
      assert i in rest && loc[i] == o;
      assert PendingIn(w, cyc, ecyc, s, loc, mv[..], done, i);
      e := Emit(s, i, mv[i]);
      ghost var lc, m := loc, mv[..];
      var ncyc := ReadNext(i, s, cyc, ecyc);
      Put(i, ncyc, s, cyc, o, rest);
      VisitPending(w, cyc, ecyc, s, lc, m, done, i, loc, mv[..]);
    }

    /** Everything due at cycle s is reported, each facility once and in the order of the bucket, and nothing else. */
    method StepCycle(s: int, cyc: int, ecyc: int) returns (e: seq<Emit>)
      requires Shaped() && 0 <= cyc < s <= ecyc && autosort.Length == ecyc - cyc + 1 && Steady(w, cyc, ecyc)
      requires Lists(next[..], loc, autosort[..], b, s - cyc - 1, deadlist, d)
      requires PendingTo(w, cyc, ecyc, s, loc, mv[..], {})
      modifies this`deadlist, this`loc, this`b, this`d, next, autosort, mv
      ensures Shaped() && Lists(next[..], loc, autosort[..], b, s - cyc, deadlist, d)
      ensures PendingTo(w, cyc, ecyc, s + 1, loc, mv[..], {})
      ensures Reports(w, s - 1, s, e) && Told(w, s, old(b)[s - cyc], |e|, e)
    {
      var offset := s - cyc;
      var t := autosort[offset];
      ghost var due, n := b[offset], 0;
      assert ListAt(next[..], loc, autosort[..][offset], due, offset);
      DueAre(w, cyc, ecyc, s, next[..], loc, t, due, mv[..]);
      assert due[0..] == due;
      ghost var done: set<nat> := {};
      e := [];
      while t != -1
        invariant Shaped() && Lists(next[..], loc, autosort[..], b, offset, deadlist, d)
        invariant n <= |due| && ListAt(next[..], loc, t, due[n..], offset)
        invariant PendingTo(w, cyc, ecyc, s, loc, mv[..], done)
        invariant Told(w, s, due, n, e) && done == (set j | 0 <= j < n :: due[j])
        decreases |due| - n
      {
        var ev;
        assert due[n..][0] == due[n] && due[n..][1..] == due[n + 1..];
        ev, t := Visit(t, s, cyc, ecyc, offset, due[n..], done);
        e := e + [ev];
        done := done + {due[n]};
        n := n + 1;
      }
      assert n == |due|;
      AllDue(w, s, due, e);
      NothingElse(w, cyc, ecyc, s, loc, mv[..], done);
    }

    /** At the start of a section the values that differ from those held are reported. */
    method StartValues(cyc: int) returns (e: seq<Emit>)
      requires Shaped()
      modifies mv
      ensures Shaped() && StartReports(w, cyc, old(mv[..]), e)
      ensures forall i: nat {:trigger mv[i]} :: i < |w.sel| ==> mv[i] == if w.sel[i] then w.val(i, cyc) else old(mv[i])
    {
      e := [];
      ghost var mv0 := mv[..];
      for i := 0 to |w.sel|
        invariant forall j: nat {:trigger mv[j]} :: j < |w.sel| ==> mv[j] == if j < i && w.sel[j] then w.val(j, cyc) else mv0[j]
        invariant forall x {:trigger x in e} :: x in e <==> x.fac < i && Initial(w, cyc, mv0, x)
        invariant forall j, k {:trigger e[j], e[k]} :: 0 <= j < k < |e| ==> e[j].fac < e[k].fac
      {
        if w.sel[i] {
          var buf := w.val(i, cyc);
          if mv[i] != buf {
            mv[i] := buf;
            assert forall j :: 0 <= j < |e| ==> e[j] in e;
            e := e + [Emit(cyc, i, mv[i])];
          }
        }
      }
      forall x {:trigger multiset(e)[x]} ensures multiset(e)[x] == if Initial(w, cyc, mv0, x) then 1 else 0 {
        DistinctCount(e, x);
      }
      assert forall j :: 0 <= j < |e| ==> e[j] in e;
    }

    method DistributeOne(i: nat, cyc: int, ecyc: int)
      requires Shaped() && 0 <= cyc <= ecyc && autosort.Length == ecyc - cyc + 1 && i < |w.sel|
      requires Lists(next[..], loc, autosort[..], b, 0, deadlist, d) && AllDistributed(w, cyc, ecyc, loc, mv[..], i)
      modifies this`deadlist, this`loc, this`b, this`d, next, autosort, mv
      ensures Shaped() && Lists(next[..], loc, autosort[..], b, 0, deadlist, d)
      ensures AllDistributed(w, cyc, ecyc, loc, mv[..], i + 1)
    {
      assert Distributed(w, cyc, ecyc, loc, mv[..], i, i);
      ghost var loc0, mv0 := loc, mv[..];
      if w.sel[i] {
        var ncyc := ReadNext(i, cyc, cyc, ecyc);
        Put(i, ncyc, cyc, cyc, 0, []);
      }
      OneDistributed(w, cyc, ecyc, loc0, mv0, i, loc, mv[..]);
    }

    /** Every selected facility is put where its first change in the section is. */
    method Distribute(cyc: int, ecyc: int)
      requires Shaped() && 0 <= cyc <= ecyc && autosort.Length == ecyc - cyc + 1
      requires Lists(next[..], loc, autosort[..], b, 0, deadlist, d) && loc == seq(|w.sel|, _ => -2)
      requires forall i: nat {:trigger mv[i]} :: i < |w.sel| && w.sel[i] ==> mv[i] == w.val(i, cyc)
      modifies this`deadlist, this`loc, this`b, this`d, next, autosort, mv
      ensures Shaped() && Lists(next[..], loc, autosort[..], b, 0, deadlist, d)
      ensures PendingTo(w, cyc, ecyc, cyc + 1, loc, mv[..], {})
    {
      for i := 0 to |w.sel|
        invariant Shaped() && Lists(next[..], loc, autosort[..], b, 0, deadlist, d)
        invariant AllDistributed(w, cyc, ecyc, loc, mv[..], i)
      {
        DistributeOne(i, cyc, ecyc);
      }
      forall i: nat {:trigger PendingIn(w, cyc, ecyc, cyc + 1, loc, mv[..], {}, i)} | i < |loc| ensures PendingIn(w, cyc, ecyc, cyc + 1, loc, mv[..], {}, i) {
        assert Distributed(w, cyc, ecyc, loc, mv[..], |w.sel|, i);
      }
    }
  }

  /** Facilities before k have been distributed, the others have no place yet. */
  ghost predicate Distributed(w: Waves, cyc: int, ecyc: int, loc: seq<int>, mv: seq<string>, k: int, j: nat)
    requires j < |loc| == |mv| == |w.sel| && 0 <= cyc
  {
    if j < k then PendingAt(w, cyc, ecyc, cyc + 1, loc, mv, j)
    else loc[j] == -2 && (w.sel[j] ==> mv[j] == w.val(j, cyc))
  }

  ghost predicate AllDistributed(w: Waves, cyc: int, ecyc: int, loc: seq<int>, mv: seq<string>, k: int) {
    && |loc| == |mv| == |w.sel| && 0 <= cyc
    && forall j: nat {:trigger Distributed(w, cyc, ecyc, loc, mv, k, j)} :: j < |loc| ==> Distributed(w, cyc, ecyc, loc, mv, k, j)
  }

  lemma OneDistributed(w: Waves, cyc: int, ecyc: int, loc: seq<int>, mv: seq<string>, i: nat, loc': seq<int>, mv': seq<string>)
    requires AllDistributed(w, cyc, ecyc, loc, mv, i) && i < |loc|
    requires !w.sel[i] ==> loc' == loc && mv' == mv
    requires w.sel[i] ==> var n := Next(w, i, cyc, ecyc); mv' == mv[i := w.val(i, n)] && loc' == loc[i := if n == cyc then -1 else n - cyc]
    ensures AllDistributed(w, cyc, ecyc, loc', mv', i + 1)
  {
    forall j: nat {:trigger Distributed(w, cyc, ecyc, loc', mv', i + 1, j)} | j < |loc'| ensures Distributed(w, cyc, ecyc, loc', mv', i + 1, j) {
      assert Distributed(w, cyc, ecyc, loc, mv, i, j);
    }
  }

  /** A report due at the start of a section. */
  ghost predicate Initial(w: Waves, cyc: int, mv: seq<string>, x: Emit)
    requires |mv| == |w.sel|
  {
    x.cycle == cyc && x.fac < |w.sel| && w.sel[x.fac] && x.value == w.val(x.fac, cyc) != mv[x.fac]
  }

  ghost predicate StartReports(w: Waves, cyc: int, mv: seq<string>, e: seq<Emit>)
    requires |mv| == |w.sel|
  {
    && (forall x {:trigger multiset(e)[x]} :: multiset(e)[x] == if Initial(w, cyc, mv, x) then 1 else 0)
    && forall i {:trigger e[i]} :: 0 <= i < |e| ==> e[i].cycle == cyc
  }

  /** The reports made so far are those of the first n facilities due. */
  ghost predicate Told(w: Waves, s: int, due: seq<nat>, n: nat, e: seq<Emit>) {
    |e| == n <= |due| && forall j {:trigger e[j]} :: 0 <= j < n ==> e[j] == Emit(s, due[j], w.val(due[j], s))
  }

  /** A report that belongs to the cycles behind lo up to hi. */
  ghost predicate Wanted(w: Waves, lo: int, hi: int, e: Emit) {
    && lo < e.cycle <= hi && e.fac < |w.sel| && w.sel[e.fac] && w.changes(e.fac, e.cycle)
    && e.value == w.val(e.fac, e.cycle)
  }

  /** All these reports once each, and no others, in order of time. */
  ghost predicate Reports(w: Waves, lo: int, hi: int, e: seq<Emit>) {
    && (forall x {:trigger multiset(e)[x]} :: multiset(e)[x] == if Wanted(w, lo, hi, x) then 1 else 0)
    && forall i, j {:trigger e[i], e[j]} :: 0 <= i < j < |e| ==> e[i].cycle <= e[j].cycle
  }

  /** The bucket of cycle s holds just the selected facilities that change there. */
  lemma DueAre(w: Waves, cyc: int, ecyc: int, s: int, nx: seq<int>, loc: seq<int>, h: int, due: seq<nat>, mv: seq<string>)
    requires 0 <= cyc < s <= ecyc && ListAt(nx, loc, h, due, s - cyc) && PendingTo(w, cyc, ecyc, s, loc, mv, {})
    ensures forall i: nat {:trigger w.sel[i]} :: i < |w.sel| ==> (i in due <==> w.sel[i] && w.changes(i, s))
    ensures forall i :: i in due ==> i < |w.sel|
  {
    ChainIn(nx, h, due);
    forall i: nat {:trigger w.sel[i]} | i < |w.sel| ensures i in due <==> w.sel[i] && w.changes(i, s) {
      assert PendingIn(w, cyc, ecyc, s, loc, mv, {}, i);
      assert i in due <==> loc[i] == s - cyc;
    }
  }

  lemma {:induction false} DistinctCount(e: seq<Emit>, x: Emit)
    requires forall i, j {:trigger e[i], e[j]} :: 0 <= i < j < |e| ==> e[i] != e[j]
    ensures multiset(e)[x] == if x in e then 1 else 0
  {
    if e != [] {
      DistinctCount(e[1..], x);
      assert e == [e[0]] + e[1..];
    }
  }

  lemma AllDue(w: Waves, s: int, due: seq<nat>, e: seq<Emit>)
    requires Told(w, s, due, |due|, e) && NoDup(due)
    requires forall i: nat {:trigger w.sel[i]} :: i < |w.sel| ==> (i in due <==> w.sel[i] && w.changes(i, s))
    requires forall i :: i in due ==> i < |w.sel|
    ensures Reports(w, s - 1, s, e)
  {
    forall x {:trigger multiset(e)[x]} ensures multiset(e)[x] == if Wanted(w, s - 1, s, x) then 1 else 0 {
      DistinctCount(e, x);
      DueReported(w, s, due, e, x);
    }
  }

  lemma DueReported(w: Waves, s: int, due: seq<nat>, e: seq<Emit>, x: Emit)
    requires Told(w, s, due, |due|, e)
    requires forall i: nat {:trigger w.sel[i]} :: i < |w.sel| ==> (i in due <==> w.sel[i] && w.changes(i, s))
    requires forall i :: i in due ==> i < |w.sel|
    ensures x in e <==> Wanted(w, s - 1, s, x)
  {
    if x in e {
      var j :| 0 <= j < |e| && e[j] == x;
      assert due[j] in due && w.sel[due[j]];
    }
    if Wanted(w, s - 1, s, x) {
      assert w.sel[x.fac] && x.fac in due;
      var j :| 0 <= j < |due| && due[j] == x.fac;
      assert e[j] in e && e[j] == x;
    }
  }

  lemma NothingElse(w: Waves, cyc: int, ecyc: int, s: int, loc: seq<int>, mv: seq<string>, done: set<nat>)
    requires 0 <= cyc < s <= ecyc && Steady(w, cyc, ecyc) && PendingTo(w, cyc, ecyc, s, loc, mv, done)
    requires forall i: nat {:trigger w.sel[i]} :: i < |w.sel| && w.sel[i] && w.changes(i, s) ==> i in done
    ensures PendingTo(w, cyc, ecyc, s + 1, loc, mv, {})
  {
    forall i: nat {:trigger PendingIn(w, cyc, ecyc, s + 1, loc, mv, {}, i)} | i < |loc| ensures PendingIn(w, cyc, ecyc, s + 1, loc, mv, {}, i) {
      assert PendingIn(w, cyc, ecyc, s, loc, mv, done, i);
      if i !in done && w.sel[i] {
        assert !w.changes(i, s);
        var n, m := Next(w, i, s - 1, ecyc), Next(w, i, s, ecyc);
        assert n == s - 1 ==> m == s && w.val(i, s) == w.val(i, s - 1);
        assert n != s - 1 ==> m == n;
      }
    }
  }

  lemma VisitPending(w: Waves, cyc: int, ecyc: int, s: int, loc: seq<int>, mv: seq<string>, done: set<nat>, i: nat, loc': seq<int>, mv': seq<string>)
    requires PendingTo(w, cyc, ecyc, s, loc, mv, done) && i < |loc| && w.sel[i]
    requires var n := Next(w, i, s, ecyc); mv' == mv[i := w.val(i, n)] && loc' == loc[i := if n == s then -1 else n - cyc]
    ensures PendingTo(w, cyc, ecyc, s, loc', mv', done + {i})
  {
    var done' := done + {i};
    forall j: nat {:trigger PendingIn(w, cyc, ecyc, s, loc', mv', done', j)} | j < |loc'| ensures PendingIn(w, cyc, ecyc, s, loc', mv', done', j) {
      assert PendingIn(w, cyc, ecyc, s, loc, mv, done, j);
    }
  }

  lemma PutInBucket(nx: seq<int>, loc: seq<int>, hd: seq<int>, b: seq<seq<nat>>, o: int, dead: int, d: seq<nat>, i: nat, p: int)
    requires Lists(nx, loc, hd, b, o, dead, d) && i < |loc| && loc[i] != p && loc[i] <= o && loc[i] != -1 && o < p < |b|
    ensures Lists(nx[i := hd[p]], loc[i := p], hd[p := i], b[p := [i] + b[p]], o, dead, d)
  {
    var nx', loc', hd', b' := nx[i := hd[p]], loc[i := p], hd[p := i], b[p := [i] + b[p]];
    forall q {:trigger b'[q]} | o < q < |b'| ensures ListAt(nx', loc', hd'[q], b'[q], q) {
      assert ListAt(nx, loc, hd[q], b[q], q);
      if q == p {
        Pushed(nx, loc, hd[p], b[p], i, p);
      } else {
        OtherKept(nx, loc, hd[q], b[q], q, i, hd[p], p);
      }
    }
    OtherKept(nx, loc, dead, d, -1, i, hd[p], p);
  }

  lemma PutAway(nx: seq<int>, loc: seq<int>, hd: seq<int>, b: seq<seq<nat>>, o: int, dead: int, d: seq<nat>, i: nat)
    requires Lists(nx, loc, hd, b, o, dead, d) && i < |loc| && loc[i] <= o && loc[i] != -1
    ensures Lists(nx[i := dead], loc[i := -1], hd, b, o, i, [i] + d)
  {
    var nx', loc' := nx[i := dead], loc[i := -1];
    forall q {:trigger b[q]} | o < q < |b| ensures ListAt(nx', loc', hd[q], b[q], q) {
      OtherKept(nx, loc, hd[q], b[q], q, i, dead, -1);
    }
    Pushed(nx, loc, dead, d, i, -1);
  }

  /* ---------- a section ---------- */

  lemma ReportsJoin(w: Waves, lo: int, mid: int, hi: int, e: seq<Emit>, f: seq<Emit>)
    requires lo <= mid <= hi && Reports(w, lo, mid, e) && Reports(w, mid, hi, f)
    ensures Reports(w, lo, hi, e + f)
  {
    var g := e + f;
    forall x {:trigger multiset(g)[x]} ensures multiset(g)[x] == if Wanted(w, lo, hi, x) then 1 else 0 {
      assert multiset(g)[x] == multiset(e)[x] + multiset(f)[x];
    }
    forall i, j {:trigger g[i], g[j]} | 0 <= i < j < |g| ensures g[i].cycle <= g[j].cycle {
      if i < |e| && |e| <= j {
        InRange(w, lo, mid, e, i);
        InRange(w, mid, hi, f, j - |e|);
      }
    }
  }

  lemma InRange(w: Waves, lo: int, hi: int, e: seq<Emit>, i: nat)
    requires Reports(w, lo, hi, e) && i < |e|
    ensures Wanted(w, lo, hi, e[i])
  {
    assert e[i] in multiset(e);
  }

  /** One section as handled: what was held before and after, and what was reported. */
  datatype Part = Part(cyc: int, ecyc: int, held: seq<string>, starts: seq<Emit>, steps: seq<Emit>, after: seq<string>)

  function Min(a: int, b: int): int {
    if a <= b then a else b
  }

  /**
    The part reports the values that differ at its start, then every change of every selected
    facility up to its end or the end of the run, once each and in order of time. Afterwards each
    facility holds the value of the next change still ahead in the section, or its present one.
   */
  ghost predicate PartOk(w: Waves, endCycle: int, p: Part) {
    var lim := Min(p.ecyc, endCycle);
    && |p.held| == |p.after| == |w.sel| && 0 <= p.cyc <= lim
    && StartReports(w, p.cyc, p.held, p.starts) && Reports(w, p.cyc, lim, p.steps)
    && forall i: nat {:trigger p.after[i]} :: i < |w.sel| && w.sel[i] ==> p.after[i] == w.val(i, Next(w, i, lim, p.ecyc))
  }

  method Section(w: Waves, cyc: int, ecyc: int, endCycle: int, mv: array<string>) returns (e: seq<Emit>, ghost p: Part)
    requires mv.Length == |w.sel| && 0 <= cyc <= ecyc && cyc <= endCycle && Steady(w, cyc, ecyc)
    modifies mv
    ensures PartOk(w, endCycle, p) && e == p.starts + p.steps
    ensures p.cyc == cyc && p.ecyc == ecyc && p.held == old(mv[..]) && p.after == mv[..]
  {
    var autofacs := new int[|w.sel|](_ => -1);
    var autosort := new int[ecyc - cyc + 1](_ => -1);
    var sch := new Scheduler(w, autofacs, autosort, mv);
    ghost var held := mv[..];
    var starts := sch.StartValues(cyc);
    sch.Distribute(cyc, ecyc);
    var steps := Steps(sch, cyc, ecyc, endCycle);
    e := starts + steps;
    p := Part(cyc, ecyc, held, starts, steps, mv[..]);
    var lim := Min(ecyc, endCycle);
    forall i: nat {:trigger p.after[i]} | i < |w.sel| && w.sel[i] ensures p.after[i] == w.val(i, Next(w, i, lim, ecyc)) {
      assert PendingIn(w, cyc, ecyc, lim + 1, sch.loc, mv[..], {}, i);
    }
  }

  /** The loop over the cycles of a section. */
  method Steps(sch: Scheduler, cyc: int, ecyc: int, endCycle: int) returns (e: seq<Emit>)
    requires sch.Shaped() && 0 <= cyc <= ecyc && cyc <= endCycle && sch.autosort.Length == ecyc - cyc + 1 && Steady(sch.w, cyc, ecyc)
    requires Lists(sch.next[..], sch.loc, sch.autosort[..], sch.b, 0, sch.deadlist, sch.d)
    requires PendingTo(sch.w, cyc, ecyc, cyc + 1, sch.loc, sch.mv[..], {})
    modifies sch, sch.next, sch.autosort, sch.mv
    ensures sch.Shaped() && PendingTo(sch.w, cyc, ecyc, Min(ecyc, endCycle) + 1, sch.loc, sch.mv[..], {})
    ensures Reports(sch.w, cyc, Min(ecyc, endCycle), e)
  {
    e := [];
    var stepCyc := cyc + 1;
    while stepCyc <= ecyc
      invariant sch.Shaped() && cyc < stepCyc <= Min(ecyc, endCycle) + 1
      invariant Lists(sch.next[..], sch.loc, sch.autosort[..], sch.b, stepCyc - cyc - 1, sch.deadlist, sch.d)
      invariant PendingTo(sch.w, cyc, ecyc, stepCyc, sch.loc, sch.mv[..], {})
      invariant Reports(sch.w, cyc, stepCyc - 1, e)
    {
      if stepCyc > endCycle {
        break;
      }
      var f := sch.StepCycle(stepCyc, cyc, ecyc);
      ReportsJoin(sch.w, cyc, stepCyc - 1, stepCyc, e, f);
      e := e + f;
      stepCyc := stepCyc + 1;
    }
  }

  /* ---------- the whole run ---------- */

  const NO_CYCLE := 0xFFFF_FFFF_FFFF_FFFF

  /** The sections the run handles. */
  function Chosen(sections: seq<(int, int)>, startCycle: int, endCycle: int): seq<(int, int)> {
    if sections == [] then []
    else
      var (cyc, ecyc) := sections[0];
      if ecyc < startCycle then Chosen(sections[1..], startCycle, endCycle)
      else if cyc > endCycle then []
      else if ecyc < cyc || ecyc == NO_CYCLE then Chosen(sections[1..], startCycle, endCycle)
      else [sections[0]] + Chosen(sections[1..], startCycle, endCycle)
  }

  lemma ChosenNext(sections: seq<(int, int)>, j: nat, startCycle: int, endCycle: int)
    requires j < |sections|
    ensures var c, d := Chosen(sections[j..], startCycle, endCycle), Chosen(sections[j + 1..], startCycle, endCycle);
            var (cyc, ecyc) := sections[j];
            c == if ecyc < startCycle then d else if cyc > endCycle then [] else if ecyc < cyc || ecyc == NO_CYCLE then d else [sections[j]] + d
  {
    assert sections[j..][0] == sections[j] && sections[j..][1..] == sections[j + 1..];
  }

  /** Section k is one to handle, and none from the first one up to it begins behind the end of the run. */
  ghost predicate Handled(sections: seq<(int, int)>, first: nat, k: nat, startCycle: int, endCycle: int) {
    && first <= k < |sections| && startCycle <= sections[k].1 && sections[k].0 <= sections[k].1 != NO_CYCLE
    && forall i {:trigger sections[i]} :: first <= i <= k ==> sections[i].1 < startCycle || sections[i].0 <= endCycle
  }

  lemma HandledNext(sections: seq<(int, int)>, first: nat, k: nat, startCycle: int, endCycle: int)
    requires first < |sections|
    ensures Handled(sections, first, k, startCycle, endCycle) <==>
      && (sections[first].1 < startCycle || sections[first].0 <= endCycle)
      && (if k == first then startCycle <= sections[k].1 && sections[k].0 <= sections[k].1 != NO_CYCLE
          else Handled(sections, first + 1, k, startCycle, endCycle))
  {
  }

  /** The sections chosen are just those to handle, in their order; at says where they stand. */
  lemma {:induction false} ChosenAre(sections: seq<(int, int)>, first: nat, startCycle: int, endCycle: int) returns (at: seq<nat>)
    requires first <= |sections|
    ensures var c := Chosen(sections[first..], startCycle, endCycle);
            |at| == |c| && forall i {:trigger at[i]} :: 0 <= i < |at| ==> first <= at[i] < |sections| && c[i] == sections[at[i]]
    ensures forall i, j {:trigger at[i], at[j]} :: 0 <= i < j < |at| ==> at[i] < at[j]
    ensures forall k: nat {:trigger k in at} :: k in at <==> Handled(sections, first, k, startCycle, endCycle)
    decreases |sections| - first
  {
    if first == |sections| {
      at := [];
    } else {
      ChosenNext(sections, first, startCycle, endCycle);
      var more := ChosenAre(sections, first + 1, startCycle, endCycle);
      var (cyc, ecyc) := sections[first];
      at := if ecyc < startCycle then more else if cyc > endCycle then [] else if ecyc < cyc || ecyc == NO_CYCLE then more else [first] + more;
      forall k: nat {:trigger k in at} ensures k in at <==> Handled(sections, first, k, startCycle, endCycle) {
        HandledNext(sections, first, k, startCycle, endCycle);
        assert k in more <==> Handled(sections, first + 1, k, startCycle, endCycle);
      }
    }
  }

  ghost function Trace(parts: seq<Part>): seq<Emit> {
    if parts == [] then [] else Trace(parts[..|parts| - 1]) + parts[|parts| - 1].starts + parts[|parts| - 1].steps
  }

  function HeldAfter(w: Waves, parts: seq<Part>, n: int): seq<string> {
    if 0 < n <= |parts| then parts[n - 1].after else seq(|w.sel|, _ => "")
  }

  /** Part k handles section k, and starts with the values the one before it left. */
  ghost predicate FollowsAt(w: Waves, sections: seq<(int, int)>, endCycle: int, parts: seq<Part>, k: int)
    requires 0 <= k < |parts| <= |sections|
  {
    && PartOk(w, endCycle, parts[k]) && (parts[k].cyc, parts[k].ecyc) == sections[k]
    && parts[k].held == HeldAfter(w, parts, k)
  }

  ghost predicate Follows(w: Waves, sections: seq<(int, int)>, endCycle: int, parts: seq<Part>) {
    && |parts| <= |sections|
    && forall k {:trigger FollowsAt(w, sections, endCycle, parts, k)} :: 0 <= k < |parts| ==> FollowsAt(w, sections, endCycle, parts, k)
  }

  lemma FollowsMore(w: Waves, sections: seq<(int, int)>, endCycle: int, parts: seq<Part>, p: Part)
    requires Follows(w, sections, endCycle, parts) && |parts| < |sections|
    requires PartOk(w, endCycle, p) && p.held == HeldAfter(w, parts, |parts|) && (p.cyc, p.ecyc) == sections[|parts|]
    ensures Follows(w, sections, endCycle, parts + [p]) && Trace(parts + [p]) == Trace(parts) + (p.starts + p.steps)
  {
    var more := parts + [p];
    assert more[..|parts|] == parts;
    forall k {:trigger FollowsAt(w, sections, endCycle, more, k)} | 0 <= k < |more| ensures FollowsAt(w, sections, endCycle, more, k) {
      if k < |parts| {
        assert FollowsAt(w, sections, endCycle, parts, k);
      }
    }
  }

  /** ae2_iterator for scalar facilities. */
  method Iterator(w: Waves, sections: seq<(int, int)>, startCycle: int, endCycle: int) returns (e: seq<Emit>, ghost parts: seq<Part>)
    requires forall k {:trigger sections[k]} :: 0 <= k < |sections| ==> 0 <= sections[k].0 && Steady(w, sections[k].0, sections[k].1)
    ensures var all := Chosen(sections, startCycle, endCycle);
            Follows(w, all, endCycle, parts) && |parts| == |all| && e == Trace(parts)
  {
    var mv := new string[|w.sel|](_ => "");
    ghost var all := Chosen(sections, startCycle, endCycle);
    e, parts := [], [];
    var j := 0;
    assert sections[0..] == sections;
    while j < |sections|
      invariant 0 <= j <= |sections| && Follows(w, all, endCycle, parts) && mv[..] == HeldAfter(w, parts, |parts|) && e == Trace(parts)
      invariant Chosen(sections[j..], startCycle, endCycle) == all[|parts|..]
    {
      var (cyc, ecyc) := sections[j];
      ChosenNext(sections, j, startCycle, endCycle);
      if ecyc < startCycle {
        j := j + 1;
        continue;
      }
      if cyc > endCycle {
        break;
      }
      if ecyc < cyc || ecyc == NO_CYCLE {
        j := j + 1;
        continue;
      }
      assert all[|parts|..] == [all[|parts|]] + all[|parts| + 1..];
      var f;
      ghost var p;
      f, p := Section(w, cyc, ecyc, endCycle, mv);
      FollowsMore(w, all, endCycle, parts, p);
      parts := parts + [p];
      e := e + f;
      j := j + 1;
    }
  }

  ghost predicate InOrder(e: seq<Emit>, lo: int, hi: int) {
    && (forall i, j {:trigger e[i], e[j]} :: 0 <= i < j < |e| ==> e[i].cycle <= e[j].cycle)
    && forall i {:trigger e[i]} :: 0 <= i < |e| ==> lo <= e[i].cycle <= hi
  }

  lemma OrderJoin(a: seq<Emit>, b: seq<Emit>, lo: int, m: int, n: int, hi: int)
    requires InOrder(a, lo, m) && InOrder(b, n, hi) && lo <= m <= n <= hi
    ensures InOrder(a + b, lo, hi)
  {
  }

  /** With sections one after the other the whole trace is in order of time. */
  lemma {:induction false} TraceOrdered(w: Waves, sections: seq<(int, int)>, endCycle: int, parts: seq<Part>)
    requires Follows(w, sections, endCycle, parts)
    requires forall i, j {:trigger sections[i], sections[j]} :: 0 <= i < j < |sections| ==> sections[i].1 < sections[j].0
    ensures InOrder(Trace(parts), 0, if parts == [] then 0 else parts[|parts| - 1].ecyc)
    decreases |parts|
  {
    if parts != [] {
      var q, p := parts[..|parts| - 1], parts[|parts| - 1];
      assert parts == q + [p];
      FollowsFront(w, sections, endCycle, q, p);
      TraceOrdered(w, sections, endCycle, q);
      PartOrdered(w, endCycle, p);
      var m := if q == [] then 0 else q[|q| - 1].ecyc;
      assert Trace(parts) == Trace(q) + (p.starts + p.steps);
      OrderJoin(Trace(q), p.starts + p.steps, 0, m, p.cyc, p.ecyc);
    }
  }

  lemma FollowsFront(w: Waves, sections: seq<(int, int)>, endCycle: int, q: seq<Part>, p: Part)
    requires Follows(w, sections, endCycle, q + [p])
    requires forall i, j {:trigger sections[i], sections[j]} :: 0 <= i < j < |sections| ==> sections[i].1 < sections[j].0
    ensures Follows(w, sections, endCycle, q) && PartOk(w, endCycle, p)
    ensures q != [] ==> 0 <= q[|q| - 1].ecyc < p.cyc
  {
    var parts := q + [p];
    assert FollowsAt(w, sections, endCycle, parts, |q|) && parts[|q|] == p;
    forall k {:trigger FollowsAt(w, sections, endCycle, q, k)} | 0 <= k < |q| ensures FollowsAt(w, sections, endCycle, q, k) {
      assert FollowsAt(w, sections, endCycle, parts, k);
    }
    if q != [] {
      assert FollowsAt(w, sections, endCycle, parts, |q| - 1);
    }
  }

  lemma PartOrdered(w: Waves, endCycle: int, p: Part)
    requires PartOk(w, endCycle, p)
    ensures InOrder(p.starts + p.steps, p.cyc, p.ecyc)
  {
    forall i | 0 <= i < |p.steps| ensures p.cyc < p.steps[i].cycle <= p.ecyc {
      InRange(w, p.cyc, Min(p.ecyc, endCycle), p.steps, i);
    }
  }
}
