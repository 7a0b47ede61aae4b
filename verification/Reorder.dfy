/** TracesReorder: sorting or reversing the top-level pieces of the trace list. */
module Reorder {
  import opened Brackets
  import opened TraceList
  import opened TraceBlocks
  import opened TraceDropped
  import opened SigCmp

  datatype Mode = Ins | Norm | Lex | Rvs | Other

  predicate HasCompare(mode: Mode) {
    mode.Ins? || mode.Norm? || mode.Lex?
  }

  function Lower(s: string): (t: string)
    ensures |t| == |s|
    ensures forall i :: 0 <= i < |s| ==> t[i] == if 'A' <= s[i] <= 'Z' then s[i] - 'A' + 'a' else s[i]
  {
    if s == "" then "" else [if 'A' <= s[0] <= 'Z' then (s[0] as int + 32) as char else s[0]] + Lower(s[1..])
  }

  /** The comparison of two names; blank names go to the bottom. */
  function NameCmp(mode: Mode, a: string, b: string, fast: bool): int {
    if a == "" then if b == "" then 0 else 1
    else if b == "" then -1
    else match mode
      case Ins => StrCmp(Lower(a), Lower(b))
      case Lex => Sig(a, b, fast)
      case _ => StrCmp(a, b)
  }

  ghost predicate NameOk(s: string, mode: Mode, fast: bool) {
    CString(s) && (mode.Lex? ==> Sound(s, fast))
  }

  lemma {:induction false} LowerCString(s: string)
    requires CString(s)
    ensures CString(Lower(s))
  {
    if s != "" {
      LowerCString(s[1..]);
    }
  }

  lemma NameOrder(mode: Mode, a: string, b: string, c: string, fast: bool)
    requires NameOk(a, mode, fast) && NameOk(b, mode, fast) && NameOk(c, mode, fast)
    ensures NameCmp(mode, a, a, fast) == 0
    ensures NameCmp(mode, a, b, fast) < 0 <==> NameCmp(mode, b, a, fast) > 0
    ensures NameCmp(mode, a, b, fast) <= 0 && NameCmp(mode, b, c, fast) <= 0 ==> NameCmp(mode, a, c, fast) <= 0
  {
    match mode
    case Ins =>
      LowerCString(a);
      LowerCString(b);
      LowerCString(c);
      StrCmpOrder(Lower(a), Lower(b), Lower(c));
      StrCmpOrder(Lower(b), Lower(a), Lower(c));
      StrCmpOrder(Lower(a), Lower(a), Lower(a));
    case Lex =>
      SigOrder(a, b, c, fast);
      SigOrder(a, a, a, fast);
    case _ =>
      StrCmpOrder(a, b, c);
      StrCmpOrder(a, a, a);
  }

  /**
    What comes first: a name before a blank, and otherwise the one that the dictionary has first, with
    capitals read as small letters in mode Ins.
   */
  lemma NameReads(mode: Mode, a: string, b: string, fast: bool)
    requires CString(a) && CString(b) && !mode.Lex?
    ensures NameCmp(mode, a, b, fast) < 0 <==>
      a != "" && (b == "" || if mode.Ins? then Before(Lower(a), Lower(b)) else Before(a, b))
    ensures NameCmp(mode, a, b, fast) == 0 <==> if mode.Ins? then Lower(a) == Lower(b) else a == b
  {
    LowerCString(a);
    LowerCString(b);
    StrCmpReads(a, b);
    StrCmpReads(Lower(a), Lower(b));
  }

  /** In mode Lex it is sigcmp that decides between names that are not blank. */
  lemma SignalReads(a: string, b: string, fast: bool)
    ensures NameCmp(Lex, a, b, fast) < 0 <==> a != "" && (b == "" || Sig(a, b, fast) < 0)
    ensures NameCmp(Lex, a, b, fast) > 0 <==> b != "" && (a == "" || Sig(a, b, fast) > 0)
  {
  }

  /** The laws of an order for three names. */
  ghost predicate Lawful(mode: Mode, a: string, b: string, c: string, fast: bool) {
    && (NameCmp(mode, a, b, fast) < 0 <==> NameCmp(mode, b, a, fast) > 0)
    && (NameCmp(mode, a, b, fast) <= 0 && NameCmp(mode, b, c, fast) <= 0 ==> NameCmp(mode, a, c, fast) <= 0)
  }

  /** One entry to sort: a trace, or a whole group under the name of its begin. */
  datatype Item = Item(name: string, group: bool, t: Trace)

  /* ---------- sorting ---------- */

  /** The comparison orders the names of these entries. */
  ghost predicate ItemsOk(a: seq<Item>, mode: Mode, fast: bool) {
    forall x, y, z {:trigger Lawful(mode, x.name, y.name, z.name, fast)} :: x in a && y in a && z in a ==>
      Lawful(mode, x.name, y.name, z.name, fast)
  }

  ghost predicate SortedItems(a: seq<Item>, mode: Mode, fast: bool) {
    forall i, j {:trigger a[i], a[j]} :: 0 <= i <= j < |a| ==> NameCmp(mode, a[i].name, a[j].name, fast) <= 0
  }

  /** Stands for the library's qsort: some permutation, sorted when the comparison is an order. */
  method QSort(a: seq<Item>, mode: Mode, fast: bool) returns (s: seq<Item>)
    ensures multiset(s) == multiset(a) && (ItemsOk(a, mode, fast) ==> SortedItems(s, mode, fast))
  {
    s := [];
    for i := 0 to |a|
      invariant multiset(s) == multiset(a[..i]) && (ItemsOk(a, mode, fast) ==> SortedItems(s, mode, fast))
    {
      ItemsOf(s, a, i);
      s := SortIn(s, a[i], mode, fast, a);
      assert a[..i + 1] == a[..i] + [a[i]];
    }
    assert a[..|a|] == a;
  }

  lemma ItemsOf(s: seq<Item>, a: seq<Item>, i: nat)
    requires i <= |a| && multiset(s) == multiset(a[..i])
    ensures forall x :: x in s ==> x in a
  {
    forall x | x in s ensures x in a {
      assert x in multiset(s);
      assert x in a[..i];
    }
  }

  method SortIn(s: seq<Item>, x: Item, mode: Mode, fast: bool, ghost a: seq<Item>) returns (r: seq<Item>)
    requires x in a && forall y :: y in s ==> y in a
    ensures multiset(r) == multiset(s) + multiset{x}
    ensures ItemsOk(a, mode, fast) && SortedItems(s, mode, fast) ==> SortedItems(r, mode, fast)
  {
    var k := 0;
    while k < |s| && NameCmp(mode, s[k].name, x.name, fast) <= 0
      invariant 0 <= k <= |s| && forall i {:trigger s[i]} :: 0 <= i < k ==> NameCmp(mode, s[i].name, x.name, fast) <= 0
    {
      k := k + 1;
    }
    r := s[..k] + [x] + s[k..];
    InMultiset(s, x, k);
    if ItemsOk(a, mode, fast) && SortedItems(s, mode, fast) {
      SortedIn(s, x, k, mode, fast, a);
    }
  }

  lemma InMultiset(s: seq<Item>, x: Item, k: nat)
    requires k <= |s|
    ensures multiset(s[..k] + [x] + s[k..]) == multiset(s) + multiset{x}
  {
    assert s == s[..k] + s[k..];
  }

  /** Entry i of s with x put in at k. */
  function PutIn(s: seq<Item>, x: Item, k: nat, i: int): Item
    requires k <= |s| && 0 <= i <= |s|
  {
    if i < k then s[i] else if i == k then x else s[i - 1]
  }

  /** k is the place for x in s. */
  ghost predicate Place(s: seq<Item>, x: Item, k: nat, mode: Mode, fast: bool, a: seq<Item>) {
    && k <= |s| && SortedItems(s, mode, fast) && ItemsOk(a, mode, fast) && x in a && (forall y :: y in s ==> y in a)
    && (forall i {:trigger s[i]} :: 0 <= i < k ==> NameCmp(mode, s[i].name, x.name, fast) <= 0)
    && (k < |s| ==> NameCmp(mode, s[k].name, x.name, fast) > 0)
  }

  lemma PutInOrder(s: seq<Item>, x: Item, k: nat, i: nat, j: nat, mode: Mode, fast: bool, a: seq<Item>)
    requires Place(s, x, k, mode, fast, a) && i <= j <= |s|
    ensures NameCmp(mode, PutIn(s, x, k, i).name, PutIn(s, x, k, j).name, fast) <= 0
  {
    if i == k && j == k {
      assert Lawful(mode, x.name, x.name, x.name, fast);
    } else if i == k {
      assert s[k] in a && s[j - 1] in a;
      assert Lawful(mode, s[k].name, x.name, x.name, fast);
      assert Lawful(mode, x.name, s[k].name, s[j - 1].name, fast);
    }
  }

  lemma SortedIn(s: seq<Item>, x: Item, k: nat, mode: Mode, fast: bool, a: seq<Item>)
    requires Place(s, x, k, mode, fast, a)
    ensures SortedItems(s[..k] + [x] + s[k..], mode, fast)
  {
    var r := s[..k] + [x] + s[k..];
    assert forall i {:trigger r[i]} :: 0 <= i < |r| ==> r[i] == PutIn(s, x, k, i);
    forall i, j {:trigger r[i], r[j]} | 0 <= i <= j < |r| ensures NameCmp(mode, r[i].name, r[j].name, fast) <= 0 {
      PutInOrder(s, x, k, i, j, mode, fast, a);
    }
  }

  /* ---------- reversing ---------- */

  /** Where entry k of a reversed array comes from: the middle pair of an even number is swapped twice. */
  function ReversedFrom(n: nat, k: int): int {
    if n % 2 == 0 && (k == n / 2 - 1 || k == n / 2) then k else n - 1 - k
  }

  function Reversed<T>(a: seq<T>): (r: seq<T>)
    ensures |r| == |a|
  {
    seq(|a|, k requires 0 <= k < |a| => a[ReversedFrom(|a|, k)])
  }

  /** The first i pairs have been swapped. */
  ghost predicate HalfReversed<T>(a: seq<T>, r: seq<T>, i: nat) {
    && |r| == |a| && i <= |a| / 2 + 1
    && forall k {:trigger r[k]} :: 0 <= k < |a| ==>
      r[k] == a[if i == |a| / 2 + 1 then ReversedFrom(|a|, k) else if k < i || k > |a| - 1 - i then |a| - 1 - k else k]
  }

  lemma ReverseStep<T>(a: seq<T>, r: seq<T>, i: nat)
    requires HalfReversed(a, r, i) && i <= |a| / 2 < |a|
    ensures HalfReversed(a, r[i := r[|a| - 1 - i]][|a| - 1 - i := r[i]], i + 1)
    ensures multiset(r[i := r[|a| - 1 - i]][|a| - 1 - i := r[i]]) == multiset(r)
  {
  }

  lemma AllReversed<T>(a: seq<T>, r: seq<T>)
    requires HalfReversed(a, r, |a| / 2 + 1)
    ensures r == Reversed(a)
  {
  }

  method ReversePair(a: seq<Item>, r0: seq<Item>, i: nat) returns (r: seq<Item>)
    requires HalfReversed(a, r0, i) && i <= |a| / 2 < |a|
    ensures HalfReversed(a, r, i + 1) && multiset(r) == multiset(r0)
  {
    ReverseStep(a, r0, i);
    r := r0;
    var j := |a| - i - 1;
    var tmp := r[i];
    r := r[i := r[j]];
    r := r[j := tmp];
  }

  method Reverse(a: seq<Item>) returns (r: seq<Item>)
    requires a != []
    ensures r == Reversed(a) && multiset(r) == multiset(a)
  {
    r := a;
    for i := 0 to |a| / 2 + 1
      invariant multiset(r) == multiset(a) && HalfReversed(a, r, i)
    {
      r := ReversePair(a, r, i);
    }
    AllReversed(a, r);
  }

  /** So the order is exactly reversed when the number of entries is odd, or the middle two are equal. */
  lemma ReversedWhen<T>(a: seq<T>)
    ensures (forall k {:trigger Reversed(a)[k]} :: 0 <= k < |a| ==> Reversed(a)[k] == a[|a| - 1 - k])
      <==> |a| % 2 == 1 || |a| == 0 || a[|a| / 2 - 1] == a[|a| / 2]
  {
    var r, n := Reversed(a), |a|;
    assert forall k :: 0 <= k < n ==> r[k] == a[ReversedFrom(n, k)];
    if n % 2 == 0 && n > 0 {
      assert r[n / 2] == a[n / 2];
    }
  }

  /* ---------- entries and their pieces ---------- */

  function BlockOf(bm: map<Trace, seq<Trace>>, t: Trace): seq<Trace> {
    if t in bm then bm[t] else []
  }

  /** The pieces that the entries stand for. */
  ghost function Through(a: seq<Item>, bm: map<Trace, seq<Trace>>): (b: seq<seq<Trace>>)
    ensures |b| == |a| && forall i {:trigger b[i]} :: 0 <= i < |a| ==> b[i] == BlockOf(bm, a[i].t)
  {
    seq(|a|, i requires 0 <= i < |a| => BlockOf(bm, a[i].t))
  }

  lemma FlattenMiddle(u: seq<seq<Trace>>, x: seq<Trace>, v: seq<seq<Trace>>)
    ensures Flatten(u + [x] + v) == Flatten(u) + x + Flatten(v) && Flatten(u + v) == Flatten(u) + Flatten(v)
  {
    FlattenConcat(u + [x], v);
    FlattenConcat(u, [x]);
    FlattenConcat(u, v);
    assert [x][1..] == [] && Flatten([x]) == x;
  }

  lemma ThroughConcat(a: seq<Item>, x: Item, b: seq<Item>, bm: map<Trace, seq<Trace>>)
    ensures Through(a + [x] + b, bm) == Through(a, bm) + [BlockOf(bm, x.t)] + Through(b, bm)
    ensures Through(a + b, bm) == Through(a, bm) + Through(b, bm)
  {
  }

  /** What a list of entries says without its order. */
  ghost predicate SamePieces(b: seq<seq<Trace>>, c: seq<seq<Trace>>) {
    multiset(b) == multiset(c) && multiset(Flatten(b)) == multiset(Flatten(c))
  }

  /** The first element of one list in a permutation of it. */
  lemma Pull<T>(a: seq<T>, b: seq<T>) returns (u: seq<T>, v: seq<T>)
    requires multiset(a) == multiset(b) && a != []
    ensures b == u + [a[0]] + v && multiset(u + v) == multiset(a[1..])
  {
    var i := FindIn(b, a[0]) by { assert a[0] in multiset(a); }
    u, v := b[..i], b[i + 1..];
    assert a[..0] + a[1..] == a[1..];
    Remove(a, 0);
    Remove(b, i);
  }

  lemma FindIn<T>(b: seq<T>, x: T) returns (i: nat)
    requires x in multiset(b)
    ensures i < |b| && b[i] == x && b == b[..i] + [x] + b[i + 1..]
  {
    i :| i < |b| && b[i] == x;
  }

  lemma {:induction false} ThroughPermuted(a: seq<Item>, b: seq<Item>, bm: map<Trace, seq<Trace>>)
    requires multiset(a) == multiset(b)
    ensures SamePieces(Through(a, bm), Through(b, bm))
    decreases |a|
  {
    if a == [] {
      assert |multiset(b)| == 0;
    } else {
      var u, v := Pull(a, b);
      ThroughPermuted(a[1..], u + v, bm);
      ThroughMiddle([], a[0], a[1..], bm);
      assert [] + [a[0]] + a[1..] == a && [] + a[1..] == a[1..];
      ThroughMiddle(u, a[0], v, bm);
    }
  }

  lemma ThroughMiddle(u: seq<Item>, x: Item, v: seq<Item>, bm: map<Trace, seq<Trace>>)
    ensures multiset(Through(u + [x] + v, bm)) == multiset{BlockOf(bm, x.t)} + multiset(Through(u + v, bm))
    ensures multiset(Flatten(Through(u + [x] + v, bm))) == multiset(BlockOf(bm, x.t)) + multiset(Flatten(Through(u + v, bm)))
  {
    ThroughConcat(u, x, v, bm);
    FlattenMiddle(Through(u, bm), BlockOf(bm, x.t), Through(v, bm));
    MultisetMiddle(Through(u, bm), BlockOf(bm, x.t), Through(v, bm));
  }

  lemma MultisetMiddle<T>(u: seq<T>, x: T, v: seq<T>)
    ensures multiset(u + [x] + v) == multiset{x} + multiset(u + v)
  {
  }

  lemma Remove<T>(a: seq<T>, i: nat)
    requires i < |a|
    ensures multiset(a[..i] + a[i + 1..]) == multiset(a) - multiset{a[i]}
  {
    assert a == a[..i] + [a[i]] + a[i + 1..];
  }

  /* ---------- taking the list apart ---------- */

  /** Entry it stands for piece b. */
  ghost predicate Stands(it: Item, b: seq<Trace>) {
    && b != [] && it.t == b[0] && it.name == b[0].name
    && (it.group <==> b[0].kind == Begin) && (!it.group ==> |b| == 1)
  }

  ghost predicate AllStand(items: seq<Item>, b: seq<seq<Trace>>, n: nat) {
    |items| == n <= |b| && forall m {:trigger items[m]} :: 0 <= m < n ==> Stands(items[m], b[m])
  }

  /** From i on the chain is as it was. */
  ghost predicate Uncut(q: seq<Trace>, i: nat)
    reads q`next
  {
    forall j: nat {:trigger NextAt(q, j)} :: i <= j < |q| ==> NextAt(q, j)
  }

  /** Trace j is followed by the next one, but the last one in front of e by none. */
  ghost predicate ChainAt(q: seq<Trace>, e: int, j: nat)
    requires j < |q|
    reads q`next
  {
    q[j].next == if j + 1 == e then null else Get(q, j + 1)
  }

  /** Piece b lies at s, in front of i; a group is a chain of its own. */
  ghost predicate Aside(q: seq<Trace>, i: nat, b: seq<Trace>, s: nat)
    reads q`next
  {
    && s + |b| <= i <= |q| && q[s..s + |b|] == b
    && (b != [] && b[0].kind == Begin ==> forall j: nat {:trigger ChainAt(q, s + |b|, j)} :: s <= j < s + |b| ==> ChainAt(q, s + |b|, j))
  }

  ghost predicate AllAside(q: seq<Trace>, i: nat, b: seq<seq<Trace>>, at: seq<nat>)
    reads q`next
  {
    |at| <= |b| && forall m {:trigger Aside(q, i, b[m], at[m])} :: 0 <= m < |at| ==> Aside(q, i, b[m], at[m])
  }

  /** The traces in front of i are collected: entry m stands for piece m, which lies at at[m]. */
  ghost predicate Reducing(q: seq<Trace>, b: seq<seq<Trace>>, items: seq<Item>, at: seq<nat>, i: nat)
    reads q`next
  {
    && i <= |q| && Uncut(q, i) && Blocks(q, i) == b[if |items| <= |b| then |items| else 0..]
    && AllStand(items, b, |items|) && |at| == |items| && AllAside(q, i, b, at)
  }

  /** The scan for the end of the group that begins at i. */
  method FindEnd(tsort: seq<Trace>, i: nat) returns (found: bool, j: nat)
    requires i < |tsort|
    ensures found <==> 0 <= Closing(Kinds(tsort), i, 0)
    ensures found ==> j == Closing(Kinds(tsort), i, 0)
  {
    var cnt := 0;
    ghost var k := Kinds(tsort);
    j := i;
    while j < |tsort|
      invariant i <= j <= |tsort| && Closing(k, j, cnt) == Closing(k, i, 0)
    {
      if tsort[j].kind == Begin {
        cnt := cnt + 1;
      } else if tsort[j].kind == End {
        cnt := cnt - 1;
      }
      if cnt == 0 {
        return true, j;
      }
      j := j + 1;
    }
    found := false;
  }

  lemma Skipped(q: seq<Trace>, b: seq<seq<Trace>>, items: seq<Item>, at: seq<nat>, i: nat)
    requires Reducing(q, b, items, at, i) && i < |q| && BlockEnd(q, i) < 0
    ensures Reducing(q, b, items, at, i + 1)
  {
    forall m {:trigger Aside(q, i + 1, b[m], at[m])} | 0 <= m < |at| ensures Aside(q, i + 1, b[m], at[m]) {
      assert Aside(q, i, b[m], at[m]);
    }
  }

  /** What is still to come when the piece at i is taken. */
  lemma NextBlock(q: seq<Trace>, i: nat, b: seq<seq<Trace>>, n: nat)
    requires i < |q| && 0 <= BlockEnd(q, i) && n <= |b| && Blocks(q, i) == b[n..]
    ensures n < |b| && b[n] == q[i..BlockEnd(q, i) + 1] && Blocks(q, BlockEnd(q, i) + 1) == b[n + 1..]
  {
    assert b[n..] == [b[n..][0]] + b[n..][1..];
  }

  lemma AllStandMore(items: seq<Item>, b: seq<seq<Trace>>, it: Item, x: seq<Trace>)
    requires AllStand(items, b, |items|) && |items| < |b| && b[|items|] == x && Stands(it, x)
    ensures AllStand(items + [it], b, |items| + 1)
  {
  }

  /** One more entry stands for one more piece, which lies at i. */
  lemma OneMore(q: seq<Trace>, b: seq<seq<Trace>>, items: seq<Item>, at: seq<nat>, i: nat, e: nat, it: Item)
    requires i < |q| && e == BlockEnd(q, i) && |items| <= |b| && Blocks(q, i) == b[|items|..]
    requires AllStand(items, b, |items|) && |at| == |items| && AllAside(q, e + 1, b, at)
    requires Stands(it, q[i..e + 1]) && Aside(q, e + 1, q[i..e + 1], i) && Uncut(q, e + 1)
    ensures Reducing(q, b, items + [it], at + [i], e + 1)
  {
    NextBlock(q, i, b, |items|);
    AllStandMore(items, b, it, q[i..e + 1]);
    var at' := at + [i];
    forall m {:trigger Aside(q, e + 1, b[m], at'[m])} | 0 <= m < |at'| ensures Aside(q, e + 1, b[m], at'[m]) {
      if m < |at| { assert Aside(q, e + 1, b[m], at[m]) && at'[m] == at[m]; }
    }
  }

  /** Cuts the chain behind the group from i to e. */
  method CutBehind(q: seq<Trace>, i: nat, e: nat, ghost b: seq<seq<Trace>>, ghost at: seq<nat>)
    requires Distinct(q) && i <= e < |q| && Uncut(q, i) && AllAside(q, i, b, at)
    modifies {q[e]}`next
    ensures Uncut(q, e + 1) && AllAside(q, e + 1, b, at) && Aside(q, e + 1, q[i..e + 1], i)
  {
    q[e].next := null;
    forall j: nat {:trigger NextAt(q, j)} | e + 1 <= j < |q| ensures NextAt(q, j) {
      assert old(NextAt(q, j));
    }
    forall j: nat {:trigger ChainAt(q, e + 1, j)} | i <= j < e + 1 ensures ChainAt(q, e + 1, j) {
      assert old(NextAt(q, j));
    }
    forall m {:trigger Aside(q, e + 1, b[m], at[m])} | 0 <= m < |at| ensures Aside(q, e + 1, b[m], at[m]) {
      assert old(Aside(q, i, b[m], at[m]));
      var s, n := at[m], |b[m]|;
      if b[m] != [] && b[m][0].kind == Begin {
        forall j: nat {:trigger ChainAt(q, s + n, j)} | s <= j < s + n ensures ChainAt(q, s + n, j) {
          assert old(ChainAt(q, s + n, j));
        }
      }
    }
  }

  /** One entry for every top-level piece; the begin of a group that is never closed gets none. */
  method Reduce(tsort: seq<Trace>) returns (items: seq<Item>, ghost at: seq<nat>)
    requires Distinct(tsort) && NextChain(tsort)
    modifies tsort`next
    ensures Reducing(tsort, Blocks(tsort, 0), items, at, |tsort|) && |items| == |Blocks(tsort, 0)|
  {
    ghost var b := Blocks(tsort, 0);
    items, at := [], [];
    var i := 0;
    while i < |tsort|
      invariant Reducing(tsort, b, items, at, i)
      decreases |tsort| - i
    {
      items, at, i := ReduceNext(tsort, b, items, at, i);
    }
    assert b[|items|..] == [];
  }

  method ReduceNext(tsort: seq<Trace>, ghost b: seq<seq<Trace>>, items0: seq<Item>, ghost at0: seq<nat>, i0: nat)
    returns (items: seq<Item>, ghost at: seq<nat>, i: nat)
    requires Distinct(tsort) && i0 < |tsort| && Reducing(tsort, b, items0, at0, i0)
    modifies tsort`next
    ensures i0 < i && Reducing(tsort, b, items, at, i)
  {
    items, at, i := items0, at0, i0;
    var t := tsort[i];
    if t.kind == Begin {
      var found, j := FindEnd(tsort, i);
      if found {
        items := items + [Item(t.name, true, t)];
        CutBehind(tsort, i, j, b, at);
        OneMore(tsort, b, items0, at0, i0, j, Item(t.name, true, t));
        at := at + [i];
        i := j;
      } else {
        Skipped(tsort, b, items, at, i);
      }
    } else {
      items := items + [Item(t.name, false, t)];
      Single(tsort, b, items0, at0, i0);
      OneMore(tsort, b, items0, at0, i0, i0, Item(t.name, false, t));
      at := at + [i];
    }
    i := i + 1;
  }

  /** A trace that begins no group lies where it is. */
  lemma Single(q: seq<Trace>, b: seq<seq<Trace>>, items: seq<Item>, at: seq<nat>, i: nat)
    requires Reducing(q, b, items, at, i) && i < |q| && q[i].kind != Begin
    ensures AllAside(q, i + 1, b, at) && Aside(q, i + 1, q[i..i + 1], i) && Uncut(q, i + 1)
  {
    forall m {:trigger Aside(q, i + 1, b[m], at[m])} | 0 <= m < |at| ensures Aside(q, i + 1, b[m], at[m]) {
      assert Aside(q, i, b[m], at[m]);
    }
  }

  /* ---------- and together again ---------- */

  /** The entry leads to its piece: the trace itself, or the chain of a cut-out group. */
  ghost predicate Unfolds(it: Item, bm: map<Trace, seq<Trace>>)
    reads BlockOf(bm, it.t)`next
  {
    && it.t in bm && bm[it.t] != [] && bm[it.t][0] == it.t
    && if it.group then NextChain(bm[it.t]) else bm[it.t] == [it.t]
  }

  method UnfoldOne(it: Item, ghost bm: map<Trace, seq<Trace>>) returns (x: seq<Trace>)
    requires Unfolds(it, bm)
    ensures x == bm[it.t]
  {
    if !it.group {
      return [it.t];
    }
    ghost var b := bm[it.t];
    x := [];
    var trav: Trace? := it.t;
    while trav != null
      invariant |x| <= |b| && x == b[..|x|] && trav == Get(b, |x|)
      decreases |b| - |x|
    {
      assert NextAt(b, |x|);
      x := x + [trav];
      trav := trav.next;
    }
  }

  lemma FlattenNext(b: seq<seq<Trace>>, j: nat)
    requires j < |b|
    ensures Flatten(b[..j + 1]) == Flatten(b[..j]) + b[j]
  {
    FlattenConcat(b[..j], [b[j]]);
    assert b[..j + 1] == b[..j] + [b[j]] && Flatten([b[j]]) == b[j];
  }

  method Unfold(items: seq<Item>, ghost bm: map<Trace, seq<Trace>>) returns (x: seq<Trace>)
    requires forall j {:trigger items[j]} :: 0 <= j < |items| ==> Unfolds(items[j], bm)
    ensures x == Flatten(Through(items, bm))
  {
    x := [];
    ghost var b := Through(items, bm);
    for j := 0 to |items|
      invariant x == Flatten(b[..j])
    {
      var y := UnfoldOne(items[j], bm);
      FlattenNext(b, j);
      x := x + y;
    }
    assert b[..|items|] == b;
  }

  /** Within a group the cut chain is the chain of the group. */
  lemma CutChain(q: seq<Trace>, i: nat, b: seq<Trace>, s: nat)
    requires Aside(q, i, b, s) && b != [] && b[0].kind == Begin
    ensures NextChain(b)
  {
    forall x: nat {:trigger NextAt(b, x)} | x < |b| ensures NextAt(b, x) {
      assert ChainAt(q, s + |b|, s + x) && b[x] == q[s + x];
      assert x + 1 < |b| ==> b[x + 1] == q[s + x + 1];
    }
  }

  lemma {:induction false} HeadMap(b: seq<seq<Trace>>) returns (bm: map<Trace, seq<Trace>>)
    requires (forall m {:trigger b[m]} :: 0 <= m < |b| ==> b[m] != []) && Distinct(Flatten(b))
    ensures forall m {:trigger b[m]} :: 0 <= m < |b| ==> b[m][0] in bm && bm[b[m][0]] == b[m]
    ensures forall t :: t in bm ==> t in Flatten(b)
  {
    bm := map[];
    if b != [] {
      DistinctParts(b[0], Flatten(b[1..]));
      var rest := b[1..];
      var bm1 := HeadMap(rest);
      bm := bm1[b[0][0] := b[0]];
      forall m {:trigger b[m]} | 0 <= m < |b| ensures b[m][0] in bm && bm[b[m][0]] == b[m] {
        if m > 0 {
          assert b[m] == rest[m - 1];
          assert b[m][0] in Flatten(rest) && b[0][0] in b[0];
        }
      }
    }
  }

  lemma KeptDistinct(q: seq<Trace>)
    requires Distinct(q)
    ensures Distinct(Flatten(Blocks(q, 0)))
  {
    var f, l := Flatten(Blocks(q, 0)), Lost(q, 0);
    KeptOrLost(q, 0, f, l, q[0..]);
    assert q[0..] == q;
    OnceEach(q);
    OnceEach(f);
    forall t {:trigger multiset(f)[t]} ensures multiset(f)[t] <= 1 {
      assert multiset(f)[t] + multiset(l)[t] == multiset(q)[t];
    }
  }

  /** All entries of the reduced list unfold, in whatever order. */
  lemma ReducedUnfold(q: seq<Trace>, items: seq<Item>, at: seq<nat>) returns (bm: map<Trace, seq<Trace>>)
    requires Distinct(q) && Reducing(q, Blocks(q, 0), items, at, |q|) && |items| == |Blocks(q, 0)|
    ensures forall j {:trigger items[j]} :: 0 <= j < |items| ==> Unfolds(items[j], bm) && Named1(items[j], bm)
    ensures Through(items, bm) == Blocks(q, 0)
  {
    var b := Blocks(q, 0);
    KeptDistinct(q);
    forall m {:trigger b[m]} | 0 <= m < |b| ensures b[m] != [] { assert Stands(items[m], b[m]); }
    bm := HeadMap(b);
    forall j {:trigger items[j]} | 0 <= j < |items| ensures Unfolds(items[j], bm) && Named1(items[j], bm) && bm[items[j].t] == b[j] {
      assert Stands(items[j], b[j]);
      if items[j].group {
        assert Aside(q, |q|, b[j], at[j]);
        CutChain(q, |q|, b[j], at[j]);
      }
    }
  }

  /* ---------- the whole reorder ---------- */

  lemma OnceEach(q: seq<Trace>)
    ensures Distinct(q) <==> forall t {:trigger multiset(q)[t]} :: multiset(q)[t] <= 1
  {
    if Distinct(q) {
      forall t {:trigger multiset(q)[t]} ensures multiset(q)[t] <= 1 { CountOnce(q, t); }
    } else {
      var i, j :| 0 <= i < j < |q| && q[i] == q[j];
      assert q == q[..i] + [q[i]] + q[i + 1..j] + [q[j]] + q[j + 1..];
      assert multiset(q)[q[i]] >= 2;
    }
  }

  lemma {:induction false} CountOnce(q: seq<Trace>, t: Trace)
    requires Distinct(q)
    ensures multiset(q)[t] <= 1
  {
    if q != [] {
      DistinctParts(q[..1], q[1..]);
      assert q == q[..1] + q[1..] && q[..1] == [q[0]];
      CountOnce(q[1..], t);
      assert q[0] in q[..1] && q[0] !in q[1..];
    }
  }

  /** The last place of t in q, or -1. */
  ghost function LastOf(q: seq<Trace>, t: Trace): (p: int)
    ensures -1 <= p < |q| && (0 <= p ==> q[p] == t) && (t in q ==> 0 <= p)
  {
    if q == [] then -1 else if q[|q| - 1] == t then |q| - 1 else LastOf(q[..|q| - 1], t)
  }

  lemma {:induction false} LastIs(q: seq<Trace>, i: nat)
    requires Distinct(q) && i < |q|
    ensures LastOf(q, q[i]) == i
  {
    assert q[i] in q;
  }

  /** Entry i of the array r points to the neighbours of the last place where it stands. */
  ghost predicate LinkedAt(r: seq<Trace>, i: nat)
    requires i < |r|
    reads r`next, r`prev
  {
    var p := LastOf(r, r[i]);
    r[i].next == Get(r, p + 1) && r[i].prev == Get(r, p - 1)
  }

  /** What linking up an array leaves behind when entries may stand in it more than once. */
  ghost predicate Relinked(tr: Traces, r: seq<Trace>)
    reads tr, r`next, r`prev
  {
    && tr.first == Get(r, 0) && tr.last == Get(r, |r| - 1)
    && forall i: nat {:trigger LinkedAt(r, i)} :: i < |r| ==> LinkedAt(r, i)
  }

  lemma RelinkedValid(tr: Traces)
    requires Relinked(tr, tr.list) && Distinct(tr.list) && tr.total == |tr.list|
    ensures tr.Valid()
  {
    var r := tr.list;
    forall i: nat {:trigger NextAt(r, i)} | i < |r| ensures NextAt(r, i) { LastIs(r, i); assert LinkedAt(r, i); }
    forall i: nat {:trigger PrevAt(r, i)} | i < |r| ensures PrevAt(r, i) { LastIs(r, i); assert LinkedAt(r, i); }
  }

  /** The first i entries are linked; the successor of the last of them is still to come. */
  ghost predicate HalfLinkedAt(r: seq<Trace>, i: nat, j: nat)
    requires j < i <= |r|
    reads r`next, r`prev
  {
    var p := LastOf(r[..i], r[j]);
    (p < i - 1 ==> r[j].next == Get(r, p + 1)) && r[j].prev == Get(r, p - 1)
  }

  ghost predicate HalfLinked(r: seq<Trace>, i: nat)
    requires i <= |r|
    reads r`next, r`prev
  {
    forall j: nat {:trigger HalfLinkedAt(r, i, j)} :: j < i ==> HalfLinkedAt(r, i, j)
  }

  lemma LastNext(r: seq<Trace>, i: nat, t: Trace)
    requires i < |r|
    ensures LastOf(r[..i + 1], t) == if r[i] == t then i else LastOf(r[..i], t)
  {
    assert r[..i + 1][..i] == r[..i];
  }

  /** One turn of the loop: entry i is linked behind the one in front of it. */
  method LinkOne(r: seq<Trace>, i: nat)
    requires i < |r| && HalfLinked(r, i)
    modifies {r[i]}`prev, {r[if i == 0 then 0 else i - 1]}`next
    ensures HalfLinked(r, i + 1)
  {
    var t := r[i];
    if i == 0 {
      t.prev := null;
    } else {
      r[i - 1].next := t;
      t.prev := r[i - 1];
    }
    forall j: nat {:trigger HalfLinkedAt(r, i + 1, j)} | j < i + 1 ensures HalfLinkedAt(r, i + 1, j) {
      LastNext(r, i, r[j]);
      if r[j] != t {
        assert old(HalfLinkedAt(r, i, j));
        assert r[..i][j] == r[j];
        OneBefore(r, i, r[j]);
      }
    }
  }

  /** The entry in front of i stands last at i - 1 among those in front. */
  lemma OneBefore(r: seq<Trace>, i: nat, t: Trace)
    requires 0 < i <= |r|
    ensures LastOf(r[..i], t) == i - 1 <==> r[i - 1] == t
  {
    assert r[..i][i - 1] == r[i - 1];
  }

  /** Links the entries of the array in its order. */
  method Chain(tr: Traces, tsort: seq<Trace>)
    requires tsort != [] && tr.total == |tsort| && forall t :: t in tsort ==> t in tr.list
    modifies tr`first, tr`last, tr`list, tr.list`next, tr.list`prev
    ensures tr.list == tsort && Relinked(tr, tsort)
  {
    var prev: Trace? := null;
    for i := 0 to tr.total
      invariant prev == Get(tsort, i - 1) && (i > 0 ==> tr.first == tsort[0])
      invariant HalfLinked(tsort, i)
    {
      var t := tsort[i];
      if i == 0 {
        tr.first := t;
      }
      assert tsort[i] in tsort && (i > 0 ==> tsort[i - 1] in tsort);
      LinkOne(tsort, i);
      prev := t;
    }
    tr.last := prev;
    assert tsort[|tsort| - 1] in tsort;
    CutLast(tsort);
    tr.list := tsort;
  }

  method CutLast(r: seq<Trace>)
    requires r != [] && HalfLinked(r, |r|)
    modifies {r[|r| - 1]}`next
    ensures forall i: nat {:trigger LinkedAt(r, i)} :: i < |r| ==> LinkedAt(r, i)
  {
    r[|r| - 1].next := null;
    assert r[..|r|] == r;
    forall i: nat {:trigger LinkedAt(r, i)} | i < |r| ensures LinkedAt(r, i) {
      assert old(HalfLinkedAt(r, |r|, i));
      OneBefore(r, |r|, r[i]);
    }
  }

  ghost predicate Grouping(t: Trace)
    reads t
  {
    t.grp != null || t.match_ != null || t.kind != Plain
  }

  /** Whether any trace takes part in a group. */
  method GroupsArePresent(tr: Traces) returns (rc: bool)
    requires tr.Valid()
    ensures rc <==> exists i {:trigger tr.list[i]} :: 0 <= i < |tr.list| && Grouping(tr.list[i])
  {
    var t := tr.first;
    rc := false;
    for i := 0 to tr.total
      invariant t == Get(tr.list, i) && forall j {:trigger tr.list[j]} :: 0 <= j < i ==> !Grouping(tr.list[j])
    {
      assert NextAt(tr.list, i);
      if t.grp != null || t.match_ != null || t.kind != Plain {
        assert Grouping(tr.list[i]);
        return true;
      }
      t := t.next;
    }
  }

  /** The comparison orders the names in front of the pieces. */
  ghost predicate HeadsOrdered(b: seq<seq<Trace>>, mode: Mode, fast: bool) {
    forall i, j, k {:trigger b[i], b[j], b[k]} :: 0 <= i < |b| && 0 <= j < |b| && 0 <= k < |b| && b[i] != [] && b[j] != [] && b[k] != [] ==>
      Lawful(mode, b[i][0].name, b[j][0].name, b[k][0].name, fast)
  }

  ghost predicate HeadsNamed(b: seq<seq<Trace>>, mode: Mode, fast: bool) {
    forall i {:trigger b[i]} :: 0 <= i < |b| && b[i] != [] ==> NameOk(b[i][0].name, mode, fast)
  }

  /** It orders all names without a run that is negative in 32 bits, and all names in the other modes or versions. */
  lemma NamesOrdered(b: seq<seq<Trace>>, mode: Mode, fast: bool)
    requires HeadsNamed(b, mode, fast)
    ensures HeadsOrdered(b, mode, fast)
  {
    forall i, j, k {:trigger b[i], b[j], b[k]} | 0 <= i < |b| && 0 <= j < |b| && 0 <= k < |b| && |b[i]| > 0 && |b[j]| > 0 && |b[k]| > 0
      ensures Lawful(mode, b[i][0].name, b[j][0].name, b[k][0].name, fast)
    {
      NameOrder(mode, b[i][0].name, b[j][0].name, b[k][0].name, fast);
    }
  }

  /** The order of the pieces that the mode asks for. */
  ghost predicate Arranged(mode: Mode, b: seq<seq<Trace>>, b': seq<seq<Trace>>, fast: bool) {
    && multiset(b') == multiset(b)
    && (forall i {:trigger b'[i]} :: 0 <= i < |b'| ==> b'[i] != [])
    && (mode == Rvs ==> b' == Reversed(b)) && (mode == Other ==> b' == b)
    && (HasCompare(mode) && HeadsOrdered(b, mode, fast) ==> InNameOrder(b', mode, fast))
    && (mode != Rvs && mode != Other && HeadsNamed(b, mode, fast) ==> Rising(mode, b', fast))
  }

  /** The pieces are in order of the names in front. */
  ghost predicate InNameOrder(b: seq<seq<Trace>>, mode: Mode, fast: bool) {
    forall i, j {:trigger b[i], b[j]} :: 0 <= i <= j < |b| && b[i] != [] && b[j] != [] ==>
      NameCmp(mode, b[i][0].name, b[j][0].name, fast) <= 0
  }

  /** No piece has a name that belongs before that of a piece in front of it. */
  ghost predicate Rising(mode: Mode, b: seq<seq<Trace>>, fast: bool) {
    forall i, j {:trigger b[i], b[j]} :: 0 <= i < j < |b| && b[i] != [] && b[j] != [] ==> !NameFirst(mode, b[j][0].name, b[i][0].name, fast)
  }

  /** x belongs before y: blank names come last, others as in a dictionary or, in mode Lex, by sigcmp. */
  ghost predicate NameFirst(mode: Mode, x: string, y: string, fast: bool) {
    && x != ""
    && (y == "" || if mode.Lex? then Sig(x, y, fast) < 0 else if mode.Ins? then Before(Lower(x), Lower(y)) else Before(x, y))
  }

  lemma NamesRise(mode: Mode, b: seq<seq<Trace>>, fast: bool)
    requires HasCompare(mode) && InNameOrder(b, mode, fast) && HeadsNamed(b, mode, fast)
    ensures Rising(mode, b, fast)
  {
    NamesOrdered(b, mode, fast);
    forall i, j {:trigger b[i], b[j]} | 0 <= i < j < |b| && b[i] != [] && b[j] != [] ensures !NameFirst(mode, b[j][0].name, b[i][0].name, fast) {
      var x, y := b[j][0].name, b[i][0].name;
      assert NameCmp(mode, y, x, fast) <= 0 && Lawful(mode, y, x, x, fast) && Lawful(mode, x, y, y, fast);
      if mode.Lex? {
        SignalReads(x, y, fast);
      } else {
        NameReads(mode, x, y, fast);
      }
    }
  }

  /** Arranging pieces with names that the comparison orders puts them in rising order. */
  lemma ArrangedRises(mode: Mode, b: seq<seq<Trace>>, b': seq<seq<Trace>>, fast: bool)
    requires HasCompare(mode) && multiset(b') == multiset(b) && (HeadsOrdered(b, mode, fast) ==> InNameOrder(b', mode, fast))
    ensures HeadsNamed(b, mode, fast) ==> Rising(mode, b', fast)
  {
    if HeadsNamed(b, mode, fast) {
      NamesOrdered(b, mode, fast);
      forall i {:trigger b'[i]} | 0 <= i < |b'| && b'[i] != [] ensures NameOk(b'[i][0].name, mode, fast) {
        assert b'[i] in multiset(b');
        assert b'[i] in multiset(b);
        var j :| 0 <= j < |b| && b[j] == b'[i];
      }
      NamesRise(mode, b', fast);
    }
  }

  method Arrange(items: seq<Item>, mode: Mode, fast: bool) returns (r: seq<Item>)
    ensures multiset(r) == multiset(items)
    ensures (mode == Rvs ==> r == Reversed(items)) && (mode == Other ==> r == items)
    ensures HasCompare(mode) && ItemsOk(items, mode, fast) ==> SortedItems(r, mode, fast)
  {
    r := items;
    if items != [] {
      if mode == Rvs {
        r := Reverse(items);
      } else if HasCompare(mode) {
        r := QSort(items, mode, fast);
      }
    } else {
      assert Reversed(items) == items;
    }
  }

  lemma ArrangedPieces(items: seq<Item>, r: seq<Item>, bm: map<Trace, seq<Trace>>, mode: Mode, fast: bool)
    requires multiset(r) == multiset(items)
    requires forall j {:trigger items[j]} :: 0 <= j < |items| ==> Named1(items[j], bm)
    requires (mode == Rvs ==> r == Reversed(items)) && (mode == Other ==> r == items)
    requires HasCompare(mode) && ItemsOk(items, mode, fast) ==> SortedItems(r, mode, fast)
    ensures Arranged(mode, Through(items, bm), Through(r, bm), fast)
    ensures forall j {:trigger r[j]} :: 0 <= j < |r| ==> r[j] in items
  {
    ThroughPermuted(items, r, bm);
    AllNamed(items, r, bm);
    ArrangedShape(r, bm);
    if mode == Rvs { ThroughReversed(items, bm); }
    ArrangedOrder(items, r, bm, mode, fast);
    if HasCompare(mode) { ArrangedRises(mode, Through(items, bm), Through(r, bm), fast); }
  }

  lemma ArrangedShape(r: seq<Item>, bm: map<Trace, seq<Trace>>)
    requires forall j {:trigger r[j]} :: 0 <= j < |r| ==> Named1(r[j], bm)
    ensures forall i {:trigger Through(r, bm)[i]} :: 0 <= i < |r| ==> Through(r, bm)[i] != []
  {
    forall i {:trigger Through(r, bm)[i]} | 0 <= i < |r| ensures Through(r, bm)[i] != [] {
      assert Named1(r[i], bm);
    }
  }

  lemma ThroughReversed(a: seq<Item>, bm: map<Trace, seq<Trace>>)
    ensures Through(Reversed(a), bm) == Reversed(Through(a, bm))
  {
    var b := Through(a, bm);
    assert forall i {:trigger Reversed(b)[i]} :: 0 <= i < |a| ==> Through(Reversed(a), bm)[i] == Reversed(b)[i];
  }

  lemma ArrangedOrder(items: seq<Item>, r: seq<Item>, bm: map<Trace, seq<Trace>>, mode: Mode, fast: bool)
    requires forall j {:trigger items[j]} :: 0 <= j < |items| ==> Named1(items[j], bm)
    requires forall j {:trigger r[j]} :: 0 <= j < |r| ==> Named1(r[j], bm)
    requires HasCompare(mode) && ItemsOk(items, mode, fast) ==> SortedItems(r, mode, fast)
    ensures HasCompare(mode) && HeadsOrdered(Through(items, bm), mode, fast) ==> InNameOrder(Through(r, bm), mode, fast)
  {
    if HasCompare(mode) && HeadsOrdered(Through(items, bm), mode, fast) {
      HeadsItems(items, bm, mode, fast);
      SortedHeads(r, bm, mode, fast);
    }
  }

  lemma AllNamed(items: seq<Item>, r: seq<Item>, bm: map<Trace, seq<Trace>>)
    requires multiset(r) == multiset(items) && forall j {:trigger items[j]} :: 0 <= j < |items| ==> Named1(items[j], bm)
    ensures forall j {:trigger r[j]} :: 0 <= j < |r| ==> r[j] in items && Named1(r[j], bm)
  {
    forall j {:trigger r[j]} | 0 <= j < |r| ensures r[j] in items && Named1(r[j], bm) {
      assert r[j] in multiset(r);
      assert r[j] in multiset(items);
    }
  }

  lemma SortedHeads(r: seq<Item>, bm: map<Trace, seq<Trace>>, mode: Mode, fast: bool)
    requires SortedItems(r, mode, fast) && forall j {:trigger r[j]} :: 0 <= j < |r| ==> Named1(r[j], bm)
    ensures InNameOrder(Through(r, bm), mode, fast)
  {
    var b: seq<seq<Trace>> := Through(r, bm);
    forall i: nat, j: nat {:trigger b[i], b[j]} | i <= j < |b| && |b[i]| > 0 && |b[j]| > 0
      ensures NameCmp(mode, b[i][0].name, b[j][0].name, fast) <= 0
    {
      assert Named1(r[i], bm) && Named1(r[j], bm);
    }
  }

  lemma AllUnfold(items: seq<Item>, r: seq<Item>, bm: map<Trace, seq<Trace>>)
    requires forall j {:trigger items[j]} :: 0 <= j < |items| ==> Unfolds(items[j], bm)
    requires forall j {:trigger r[j]} :: 0 <= j < |r| ==> r[j] in items
    ensures forall j {:trigger r[j]} :: 0 <= j < |r| ==> Unfolds(r[j], bm)
  {
  }

  lemma HeadsItems(items: seq<Item>, bm: map<Trace, seq<Trace>>, mode: Mode, fast: bool)
    requires HeadsOrdered(Through(items, bm), mode, fast)
    requires forall j {:trigger items[j]} :: 0 <= j < |items| ==> Named1(items[j], bm)
    ensures ItemsOk(items, mode, fast)
  {
    var b := Through(items, bm);
    forall x, y, z {:trigger Lawful(mode, x.name, y.name, z.name, fast)} | x in items && y in items && z in items
      ensures Lawful(mode, x.name, y.name, z.name, fast)
    {
      var i :| 0 <= i < |items| && items[i] == x;
      var j :| 0 <= j < |items| && items[j] == y;
      var k :| 0 <= k < |items| && items[k] == z;
      assert b[i] == bm[x.t] && b[j] == bm[y.t] && b[k] == bm[z.t];
    }
  }

  ghost predicate Named1(it: Item, bm: map<Trace, seq<Trace>>) {
    it.t in bm && bm[it.t] != [] && bm[it.t][0].name == it.name
  }

  /** The branch that keeps groups together. */
  method SortPieces(tsort: seq<Trace>, mode: Mode, fast: bool) returns (r: seq<Trace>, ghost b: seq<seq<Trace>>)
    requires Distinct(tsort) && NextChain(tsort)
    modifies tsort`next
    ensures r == Flatten(b) && Arranged(mode, Blocks(tsort, 0), b, fast)
    ensures multiset(r) == multiset(Flatten(Blocks(tsort, 0)))
  {
    var items;
    ghost var at;
    items, at := Reduce(tsort);
    ghost var bm := ReducedUnfold(tsort, items, at);
    var sorted := Arrange(items, mode, fast);
    ArrangedPieces(items, sorted, bm, mode, fast);
    ThroughPermuted(items, sorted, bm);
    r := Unfold(sorted, bm);
    b := Through(sorted, bm);
  }

  /** The branch without groups: the traces themselves are sorted. */
  method SortTraces(tsort: seq<Trace>, mode: Mode, fast: bool) returns (r: seq<Trace>, ghost b: seq<seq<Trace>>)
    requires HasCompare(mode) && forall i {:trigger tsort[i]} :: 0 <= i < |tsort| ==> tsort[i].kind == Plain
    ensures r == Flatten(b) && Arranged(mode, Blocks(tsort, 0), b, fast)
    ensures multiset(r) == multiset(Flatten(Blocks(tsort, 0)))
  {
    var items: seq<Item> := seq(|tsort|, i requires 0 <= i < |tsort| => Item(tsort[i].name, false, tsort[i]));
    ghost var bm := Alone(tsort, items);
    var sorted := QSort(items, mode, fast);
    ArrangedPieces(items, sorted, bm, mode, fast);
    ThroughPermuted(items, sorted, bm);
    AllUnfold(items, sorted, bm);
    r := Unfold(sorted, bm);
    b := Through(sorted, bm);
  }

  lemma Alone(q: seq<Trace>, items: seq<Item>) returns (bm: map<Trace, seq<Trace>>)
    requires |items| == |q| && forall i {:trigger items[i]} :: 0 <= i < |q| ==> items[i] == Item(q[i].name, false, q[i])
    requires forall i {:trigger q[i]} :: 0 <= i < |q| ==> q[i].kind == Plain
    ensures Through(items, bm) == Blocks(q, 0) && Flatten(Blocks(q, 0)) == q
    ensures forall j {:trigger items[j]} :: 0 <= j < |items| ==> Named1(items[j], bm) && Unfolds(items[j], bm)
  {
    bm := map t | t in q :: [t];
    PlainBlocks(q, 0);
    assert q[0..] == q;
    forall j {:trigger Blocks(q, 0)[j]} | 0 <= j < |q| ensures BlockOf(bm, items[j].t) == Blocks(q, 0)[j] {
      assert q[j] in q;
    }
    assert Through(items, bm) == Blocks(q, 0);
  }

  lemma {:induction false} PlainBlocks(q: seq<Trace>, i: nat)
    requires i <= |q| && forall j {:trigger q[j]} :: 0 <= j < |q| ==> q[j].kind == Plain
    ensures var b := Blocks(q, i); |b| == |q| - i && (forall j {:trigger b[j]} :: 0 <= j < |b| ==> b[j] == [q[i + j]]) && Flatten(b) == q[i..]
    decreases |q| - i
  {
    if i < |q| {
      PlainBlocks(q, i + 1);
      var b, b' := Blocks(q, i), Blocks(q, i + 1);
      assert q[i..i + 1] == [q[i]];
      assert b == [[q[i]]] + b' && b[0] == [q[i]] && b[1..] == b';
      assert q[i..] == [q[i]] + q[i + 1..];
      forall j {:trigger b[j]} | 0 <= j < |b| ensures b[j] == [q[i + j]] {
        if j > 0 { assert b[j] == b'[j - 1]; }
      }
    }
  }

  /** With the same traces, each once, it is the same list in another order. */
  lemma Permuted(q: seq<Trace>, r: seq<Trace>)
    requires Distinct(q) && |r| == |q| && forall t :: t in r ==> t in q
    ensures multiset(r) == multiset(q) <==> Distinct(r)
  {
    OnceEach(q);
    OnceEach(r);
    if Distinct(r) {
      assert multiset(r) <= multiset(q) by {
        forall t {:trigger multiset(r)[t]} ensures multiset(r)[t] <= multiset(q)[t] {
          if t in multiset(r) { assert t in r; }
        }
      }
      assert |multiset(r)| == |multiset(q)|;
      assert |multiset(q) - multiset(r)| == 0;
    }
  }

  /** The array: the rearranged pieces in front, and behind them what stood there before. */
  method NewOrder(tr: Traces, mode: Mode, fast: bool) returns (tsort: seq<Trace>, ghost b: seq<seq<Trace>>)
    requires tr.Valid()
    modifies tr.list`next
    ensures |Flatten(b)| <= |tr.list| && tsort == Flatten(b) + tr.list[|Flatten(b)|..]
    ensures multiset(Flatten(b)) == multiset(Flatten(Blocks(tr.list, 0))) && Arranged(mode, Blocks(tr.list, 0), b, fast)
  {
    tsort := Collect(tr);
    var groups := true;
    if HasCompare(mode) {
      groups := GroupsArePresent(tr);
    }
    var r;
    if HasCompare(mode) && !groups {
      r, b := SortTraces(tsort, mode, fast);
    } else {
      r, b := SortPieces(tsort, mode, fast);
    }
    PermutedWhen(tsort, r);
    tsort := r + tsort[|r|..];
  }

  lemma RightKept(q: seq<Trace>, r: seq<Trace>, b: seq<seq<Trace>>)
    requires Balanced(Kinds(q)) && r == Flatten(b) && multiset(b) == multiset(Blocks(q, 0))
    ensures Balanced(Kinds(r))
    ensures Grouped(q, Kinds(q), |q|) ==> Grouped(r, Kinds(r), |r|)
  {
    BlocksFlat(q, 0);
    assert q[0..] == q;
    SameBlocks(Blocks(q, 0), b);
    FlatBalanced(b);
    if Grouped(q, Kinds(q), |q|) {
      GroupsKept(Blocks(q, 0), b);
    }
  }

  lemma SameTraces(q: seq<Trace>, f: seq<Trace>)
    requires multiset(f) == multiset(Flatten(Blocks(q, 0))) && |f| <= |q|
    ensures forall t :: t in f + q[|f|..] ==> t in q
  {
    var l := Lost(q, 0);
    KeptOrLost(q, 0, Flatten(Blocks(q, 0)), l, q[0..]);
    assert q[0..] == q;
    forall t | t in f + q[|f|..] ensures t in q {
      if t in f {
        assert t in multiset(f);
        assert t in multiset(f) + multiset(l);
        assert t in multiset(q);
      }
    }
  }

  /** All of a balanced list is rearranged. */
  lemma NoneOver(q: seq<Trace>, f: seq<Trace>)
    requires Balanced(Kinds(q)) && multiset(f) == multiset(Flatten(Blocks(q, 0)))
    ensures |f| == |q|
  {
    BlocksFlat(q, 0);
    assert q[0..] == q;
    assert |multiset(f)| == |multiset(q)|;
  }

  /** Fills the array and links it up. */
  method Rearrange(tr: Traces, mode: Mode, fast: bool) returns (ghost b: seq<seq<Trace>>)
    requires tr.Valid() && tr.list != []
    modifies tr`first, tr`last, tr`list, tr.list`next, tr.list`prev
    ensures var q, f := old(tr.list), Flatten(b);
            |f| <= |q| && tr.list == f + q[|f|..] && Relinked(tr, tr.list) && (forall t :: t in tr.list ==> t in q)
    ensures multiset(Flatten(b)) == multiset(Flatten(Blocks(old(tr.list), 0))) && Arranged(mode, Blocks(old(tr.list), 0), b, fast)
  {
    ghost var q := tr.list;
    var tsort;
    tsort, b := NewOrder(tr, mode, fast);
    SameTraces(q, Flatten(b));
    Chain(tr, tsort);
  }

  /**
    TracesReorder on any list: the pieces, each in its own order and arranged as the mode asks, fill
    the front of the array; the rest keeps what stood there; the array is linked up. The outcome is a
    list of the same traces exactly when only unclosed begins stand behind unclosed begins. Balanced
    lists stay balanced, and right groups right.
   */
  method TracesReorder(tr: Traces, mode: Mode, fast: bool) returns (rc: int, ghost b: seq<seq<Trace>>)
    requires tr.Valid()
    modifies tr`first, tr`last, tr`list, tr.list`next, tr.list`prev
    ensures tr.total == old(tr.total) == |tr.list| && rc == (if tr.total == 0 then 0 else 1)
    ensures |Flatten(b)| <= tr.total && tr.list == Flatten(b) + old(tr.list)[|Flatten(b)|..] && Relinked(tr, tr.list)
    ensures Arranged(mode, Blocks(old(tr.list), 0), b, fast)
    ensures multiset(tr.list) == multiset(old(tr.list)) <==> LostLast(Kinds(old(tr.list)))
    ensures tr.Valid() <==> LostLast(Kinds(old(tr.list)))
    ensures Balanced(Kinds(old(tr.list))) ==>
      tr.list == Flatten(b) && Balanced(Kinds(tr.list)) && (old(tr.GroupsRight()) ==> tr.GroupsRight())
  {
    ghost var q := tr.list;
    if tr.total == 0 {
      b := [];
      assert Reversed(b) == b;
      return 0, b;
    }
    ghost var right := Grouped(q, Kinds(q), |q|);
    b := Rearrange(tr, mode, fast);
    assert right ==> Grouped(q, Kinds(q), |q|);
    Settle(tr, q, b);
    rc := 1;
  }

  /** What the order of the array says about the list. */
  lemma Settle(tr: Traces, q: seq<Trace>, b: seq<seq<Trace>>)
    requires Distinct(q) && multiset(Flatten(b)) == multiset(Flatten(Blocks(q, 0))) && multiset(b) == multiset(Blocks(q, 0))
    requires |Flatten(b)| <= |q| == tr.total && tr.list == Flatten(b) + q[|Flatten(b)|..] && Relinked(tr, tr.list)
    requires forall t :: t in tr.list ==> t in q
    ensures multiset(tr.list) == multiset(q) <==> LostLast(Kinds(q))
    ensures tr.Valid() <==> LostLast(Kinds(q))
    ensures Balanced(Kinds(q)) ==>
      tr.list == Flatten(b) && Balanced(Kinds(tr.list)) && (Grouped(q, Kinds(q), |q|) ==> tr.GroupsRight())
  {
    PermutedWhen(q, Flatten(b));
    Permuted(q, tr.list);
    if Distinct(tr.list) {
      RelinkedValid(tr);
    }
    if Balanced(Kinds(q)) {
      NoneOver(q, Flatten(b));
      assert tr.list == Flatten(b);
      RightKept(q, tr.list, b);
    }
  }

  /** One trace behind an unclosed begin: it ends up as its own predecessor. */
  lemma OwnPredecessor(tr: Traces, t: Trace, a: Trace)
    requires t.kind == Begin && a.kind == Plain && t != a
    requires var f := Flatten(Blocks([t, a], 0)); |f| <= 2 && Relinked(tr, f + [t, a][|f|..])
    ensures tr.first == a && tr.last == a && a.prev == a && a.next == null
  {
    BeginLost(t, a);
    var r := [a, a];
    assert LinkedAt(r, 0) && LastOf(r, a) == 1;
  }

  /** Lists the traces in their present order. */
  method Collect(tr: Traces) returns (tsort: seq<Trace>)
    requires tr.Valid()
    ensures tsort == tr.list
  {
    var t := tr.first;
    tsort := [];
    for i := 0 to tr.total
      invariant t == Get(tr.list, i) && tsort == tr.list[..i]
    {
      assert NextAt(tr.list, i);
      tsort := tsort + [t];
      t := t.next;
    }
  }
}
