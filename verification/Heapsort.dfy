/** wave_heapsort: sorting the symbol array in place by sigcmp. */
module Heapsort {
  import opened SigCmp

  /** A pointer to a symbol: where it is, and the name stored there. */
  datatype Symbol = Symbol(addr: int, name: string)

  /** Each name is one that sigcmp orders among all such names; for the exact version that is any C string. */
  ghost predicate Named(a: seq<Symbol>, fast: bool) {
    forall i {:trigger a[i]} :: 0 <= i < |a| ==> Sound(a[i].name, fast)
  }

  predicate Leq(x: Symbol, y: Symbol, fast: bool) {
    Sig(x.name, y.name, fast) <= 0
  }

  ghost predicate Lawful(x: Symbol, y: Symbol, z: Symbol, fast: bool) {
    (Leq(x, y, fast) || Leq(y, x, fast)) && (Leq(x, y, fast) && Leq(y, z, fast) ==> Leq(x, z, fast))
  }

  /** sigcmp orders the names of these symbols. */
  ghost predicate Ordered(a: seq<Symbol>, fast: bool) {
    forall x, y, z {:trigger Lawful(x, y, z, fast)} :: x in a && y in a && z in a ==> Lawful(x, y, z, fast)
  }

  lemma LeqOrder(a: seq<Symbol>, i: nat, j: nat, k: nat, fast: bool)
    requires Ordered(a, fast) && i < |a| && j < |a| && k < |a|
    ensures Leq(a[i], a[i], fast) && (Leq(a[i], a[j], fast) || Leq(a[j], a[i], fast))
    ensures Leq(a[i], a[j], fast) && Leq(a[j], a[k], fast) ==> Leq(a[i], a[k], fast)
  {
    assert Lawful(a[i], a[j], a[k], fast) && Lawful(a[i], a[i], a[i], fast);
  }

  /** Names without a run that is negative in 32 bits are ordered, in the exact version all names. */
  lemma NamedOrdered(a: seq<Symbol>, fast: bool)
    requires Named(a, fast)
    ensures Ordered(a, fast)
  {
    forall x, y, z {:trigger Lawful(x, y, z, fast)} | x in a && y in a && z in a ensures Lawful(x, y, z, fast) {
      SigOrder(x.name, y.name, z.name, fast);
    }
  }

  function Parent(k: int): int {
    (k - 1) / 2
  }

  /** Slot k does not exceed its parent. */
  ghost predicate Below(a: seq<Symbol>, k: int, fast: bool)
    requires 1 <= k < |a|
  {
    Leq(a[k], a[Parent(k)], fast)
  }

  /** Heap order under the nodes from lo on, up to size, except under node hole. */
  ghost predicate HeapBut(a: seq<Symbol>, lo: int, hole: int, size: int, fast: bool)
    requires 0 <= size <= |a|
  {
    forall k {:trigger Below(a, k, fast)} :: 1 <= k < size && lo <= Parent(k) && Parent(k) != hole ==> Below(a, k, fast)
  }

  /** The children of the hole do not exceed the hole's parent. */
  ghost predicate Grand(a: seq<Symbol>, lo: int, hole: int, size: int, fast: bool)
    requires 0 <= size <= |a|
  {
    forall k {:trigger a[k]} :: 1 <= k < size && Parent(k) == hole && 1 <= hole && lo <= Parent(hole) ==> Leq(a[k], a[Parent(hole)], fast)
  }

  ghost predicate Sifting(a: seq<Symbol>, lo: int, hole: int, size: int, fast: bool) {
    0 <= lo <= hole < size <= |a| && HeapBut(a, lo, hole, size, fast) && Grand(a, lo, hole, size, fast)
  }

  /** w is the largest of the hole and its children. */
  ghost predicate Largest(a: seq<Symbol>, hole: int, w: int, size: int, fast: bool)
    requires 0 <= hole < size <= |a| && 0 <= w < size
  {
    && (w == hole || Parent(w) == hole)
    && Leq(a[hole], a[w], fast)
    && forall k {:trigger a[k]} :: 1 <= k < size && Parent(k) == hole ==> Leq(a[k], a[w], fast)
  }

  lemma SiftStep(a: seq<Symbol>, lo: int, hole: int, w: int, size: int, fast: bool)
    requires Sifting(a, lo, hole, size, fast) && 1 <= w < size && Parent(w) == hole && Largest(a, hole, w, size, fast)
    ensures Sifting(a[hole := a[w]][w := a[hole]], lo, w, size, fast)
  {
    var b := a[hole := a[w]][w := a[hole]];
    forall k {:trigger Below(b, k, fast)} | 1 <= k < size && lo <= Parent(k) && Parent(k) != w ensures Below(b, k, fast) {
      if Parent(k) == hole {
        assert Leq(a[k], a[w], fast) && Leq(a[hole], a[w], fast);
      } else if k == hole {
        assert Leq(a[w], a[Parent(hole)], fast);
      } else {
        assert Below(a, k, fast);
      }
    }
    forall k {:trigger b[k]} | 1 <= k < size && Parent(k) == w ensures Leq(b[k], b[Parent(w)], fast) {
      assert Below(a, k, fast);
    }
  }

  lemma SiftEnd(a: seq<Symbol>, lo: int, hole: int, size: int, fast: bool)
    requires Sifting(a, lo, hole, size, fast) && Largest(a, hole, hole, size, fast)
    ensures HeapBut(a, lo, -1, size, fast)
  {
    forall k {:trigger Below(a, k, fast)} | 1 <= k < size && lo <= Parent(k) ensures Below(a, k, fast) {
      if Parent(k) == hole {
        assert Leq(a[k], a[hole], fast);
      }
    }
  }

  lemma NoChildren(a: seq<Symbol>, lo: int, hole: int, size: int, fast: bool)
    requires Sifting(a, lo, hole, size, fast) && hole > size / 2 - 1
    ensures HeapBut(a, lo, -1, size, fast)
  {
    forall k {:trigger Below(a, k, fast)} | 1 <= k < size && lo <= Parent(k) ensures Below(a, k, fast) {
      assert Parent(k) != hole;
    }
  }

  method Greater(x: Symbol, y: Symbol, fast: bool) returns (g: bool)
    requires Sound(x.name, false) && Sound(y.name, false)
    ensures g <==> !Leq(x, y, fast)
  {
    var rc := Compare(x.name, y.name, fast);
    g := rc > 0;
  }

  /** The larger child of i, or i. */
  method LargestOf(hp: array<Symbol>, i: nat, heapSize: nat, fast: bool) returns (largest: nat)
    requires i < heapSize <= hp.Length && Named(hp[..], false)
    ensures largest < heapSize && (largest == i || Parent(largest) == i)
    ensures Ordered(hp[..], fast) ==> Largest(hp[..], i, largest, heapSize, fast)
  {
    var l := 2 * i + 1;
    var r := l + 1;
    ghost var a := hp[..];
    largest := i;
    if l < heapSize {
      assert Sound(a[l].name, false) && Sound(a[i].name, false);
      var g := Greater(hp[l], hp[i], fast);
      if g {
        largest := l;
      }
    }
    ghost var w := largest;
    if r < heapSize {
      assert Sound(a[r].name, false) && Sound(a[w].name, false);
      var g := Greater(hp[r], hp[largest], fast);
      if g {
        largest := r;
      }
    }
    if Ordered(a, fast) {
      LargestFound(a, i, w, largest, heapSize, fast);
    }
  }

  /** Two comparisons find the largest of three. */
  lemma LargestFound(a: seq<Symbol>, i: nat, w: nat, largest: nat, size: nat, fast: bool)
    requires i < size <= |a| && Ordered(a, fast)
    requires var l := 2 * i + 1; w == if l < size && !Leq(a[l], a[i], fast) then l else i
    requires var r := 2 * i + 2; largest == if r < size && !Leq(a[r], a[w], fast) then r else w
    ensures Largest(a, i, largest, size, fast)
  {
    LeqOrder(a, i, w, w, fast);
    LeqOrder(a, w, largest, largest, fast);
    LeqOrder(a, i, w, largest, fast);
    forall k {:trigger a[k]} | 1 <= k < size && Parent(k) == i ensures Leq(a[k], a[largest], fast) {
      assert k == 2 * i + 1 || k == 2 * i + 2;
      LeqOrder(a, k, w, largest, fast);
    }
  }

  lemma Swapped(a: seq<Symbol>, i: nat, j: nat, n: nat)
    requires i < n && j < n && n <= |a|
    ensures var b := a[i := a[j]][j := a[i]]; multiset(b[..n]) == multiset(a[..n]) && b[n..] == a[n..]
  {
    var b := a[i := a[j]][j := a[i]];
    assert b[..n] == a[..n][i := a[j]][j := a[i]];
    assert a[..n][i] == a[i] && a[..n][j] == a[j];
  }

  /** Only the first n slots were permuted. */
  ghost predicate Shuffled(a: seq<Symbol>, b: seq<Symbol>, n: nat) {
    n <= |a| == |b| && multiset(a[..n]) == multiset(b[..n]) && a[n..] == b[n..]
  }

  lemma ShuffledAll(a: seq<Symbol>, b: seq<Symbol>, n: nat)
    requires Shuffled(a, b, n)
    ensures multiset(a) == multiset(b)
  {
    assert a == a[..n] + a[n..] && b == b[..n] + b[n..];
  }

  lemma ShuffledFrom(a: seq<Symbol>, b: seq<Symbol>, n: nat, i: nat) returns (j: nat)
    requires Shuffled(a, b, n) && i < n
    ensures j < n && b[i] == a[j]
  {
    assert b[..n][i] == b[i];
    assert b[i] in multiset(b[..n]);
    assert b[i] in a[..n];
    j :| j < n && a[..n][j] == b[i];
  }

  lemma OrderedKept(a: seq<Symbol>, b: seq<Symbol>, fast: bool)
    requires multiset(a) == multiset(b) && Ordered(a, fast)
    ensures Ordered(b, fast)
  {
    forall x | x in b ensures x in a { assert x in multiset(b); assert x in multiset(a); }
  }

  lemma NamedKept(a: seq<Symbol>, b: seq<Symbol>, n: nat, fast: bool)
    requires Shuffled(a, b, n) && Named(a, fast)
    ensures Named(b, fast)
  {
    forall i {:trigger b[i]} | 0 <= i < |b| ensures Sound(b[i].name, fast) {
      if i < n {
        var j := ShuffledFrom(a, b, n, i);
      } else {
        assert b[i] == b[n..][i - n] == a[i];
      }
    }
  }

  /** What sifting needs and keeps: C strings as names, and heap order but for the hole if the names are ordered. */
  ghost predicate SiftingIf(ok: bool, a: seq<Symbol>, lo: int, hole: int, size: int, fast: bool) {
    && 0 <= lo <= hole < size <= |a| && Named(a, false)
    && (ok ==> Ordered(a, fast) && Sifting(a, lo, hole, size, fast))
  }

  /** Heap order from lo on, if the names are ordered. */
  ghost predicate HeapIf(ok: bool, a: seq<Symbol>, lo: int, size: int, fast: bool) {
    0 <= size <= |a| && Named(a, false) && (ok ==> Ordered(a, fast) && HeapBut(a, lo, -1, size, fast))
  }

  /** Sifting the element at i0 down permutes the heap, and restores heap order there if the names are ordered. */
  method Heapify(hp: array<Symbol>, i0: nat, heapSize: nat, fast: bool, ghost ok: bool)
    requires SiftingIf(ok, hp[..], i0, i0, heapSize, fast)
    modifies hp
    ensures HeapIf(ok, hp[..], i0, heapSize, fast) && Shuffled(old(hp[..]), hp[..], heapSize)
  {
    var maxele := heapSize / 2 - 1;
    var i := i0;
    while true
      invariant SiftingIf(ok, hp[..], i0, i, heapSize, fast) && Shuffled(old(hp[..]), hp[..], heapSize)
      decreases heapSize - i
    {
      var largest := LargestOf(hp, i, heapSize, fast);
      if i == largest {
        SiftedIf(ok, hp[..], i0, i, heapSize, fast);
        return;
      }
      SwapDown(hp, i0, i, largest, heapSize, fast, ok);
      if largest > maxele {
        SiftedIf(ok, hp[..], i0, largest, heapSize, fast);
        return;
      }
      i := largest;
    }
  }

  /** The hole is filled when nothing below exceeds it, or nothing is below. */
  lemma SiftedIf(ok: bool, a: seq<Symbol>, lo: int, hole: int, size: int, fast: bool)
    requires SiftingIf(ok, a, lo, hole, size, fast)
    requires ok ==> Largest(a, hole, hole, size, fast) || hole > size / 2 - 1
    ensures HeapIf(ok, a, lo, size, fast)
  {
    if ok {
      if hole > size / 2 - 1 {
        NoChildren(a, lo, hole, size, fast);
      } else {
        SiftEnd(a, lo, hole, size, fast);
      }
    }
  }

  method SwapDown(hp: array<Symbol>, ghost lo: nat, i: nat, largest: nat, ghost heapSize: nat, ghost fast: bool, ghost ok: bool)
    requires SiftingIf(ok, hp[..], lo, i, heapSize, fast)
    requires 1 <= largest < heapSize && Parent(largest) == i && (ok ==> Largest(hp[..], i, largest, heapSize, fast))
    modifies hp
    ensures SiftingIf(ok, hp[..], lo, largest, heapSize, fast) && Shuffled(old(hp[..]), hp[..], heapSize)
  {
    ghost var a := hp[..];
    Swapped(a, i, largest, heapSize);
    var t := hp[i];
    hp[i] := hp[largest];
    hp[largest] := t;
    assert hp[..] == a[i := a[largest]][largest := a[i]];
    NamedKept(a, hp[..], heapSize, false);
    if ok {
      SiftStep(a, lo, i, largest, heapSize, fast);
      ShuffledAll(a, hp[..], heapSize);
      OrderedKept(a, hp[..], fast);
    }
  }

  /** No name is followed by one that sigcmp puts before it. */
  ghost predicate Rising(a: seq<Symbol>, fast: bool) {
    forall p, q {:trigger a[p], a[q]} :: 0 <= p < q < |a| ==> Sig(a[p].name, a[q].name, fast) <= 0
  }

  lemma SortedRises(a: seq<Symbol>, fast: bool)
    requires SortedFrom(a, 0, fast)
    ensures Rising(a, fast)
  {
    forall p, q {:trigger a[p], a[q]} | 0 <= p < q < |a| ensures Sig(a[p].name, a[q].name, fast) <= 0 {
      assert Leq(a[p], a[q], fast);
    }
  }

  /** The slots from n on are sorted and nothing before them exceeds them. */
  ghost predicate SortedFrom(a: seq<Symbol>, n: int, fast: bool) {
    forall p, q {:trigger Leq(a[p], a[q], fast)} :: 0 <= p <= q < |a| && n <= q ==> Leq(a[p], a[q], fast)
  }

  lemma TailKept(a: seq<Symbol>, b: seq<Symbol>, n: nat, fast: bool)
    requires Shuffled(a, b, n) && SortedFrom(a, n, fast)
    ensures SortedFrom(b, n, fast)
  {
    forall p, q {:trigger Leq(b[p], b[q], fast)} | 0 <= p <= q < |b| && n <= q ensures Leq(b[p], b[q], fast) {
      assert b[q] == b[n..][q - n] == a[q];
      if p < n {
        var j := ShuffledFrom(a, b, n, p);
        assert Leq(a[j], a[q], fast);
      } else {
        assert b[p] == b[n..][p - n] == a[p];
        assert Leq(a[p], a[q], fast);
      }
    }
  }

  /** The root of a heap exceeds everything in it. */
  lemma {:induction false} HeapMax(a: seq<Symbol>, k: nat, size: nat, fast: bool)
    requires k < size <= |a| && HeapBut(a, 0, -1, size, fast) && Ordered(a, fast)
    ensures Leq(a[k], a[0], fast)
  {
    if k == 0 {
      LeqOrder(a, 0, 0, 0, fast);
    } else {
      HeapMax(a, Parent(k), size, fast);
      assert Below(a, k, fast);
      LeqOrder(a, k, Parent(k), 0, fast);
    }
  }

  /** Swapping the root behind the rest of the heap extends the sorted tail. */
  lemma TailGrows(a: seq<Symbol>, n: nat, fast: bool)
    requires 1 <= n < |a| && HeapBut(a, 0, -1, n + 1, fast) && Ordered(a, fast) && SortedFrom(a, n + 1, fast)
    ensures var b := a[0 := a[n]][n := a[0]]; SortedFrom(b, n, fast) && HeapBut(b, 1, -1, n, fast)
  {
    var b := a[0 := a[n]][n := a[0]];
    assert HeapBut(b, 1, -1, n, fast) by {
      forall k {:trigger Below(b, k, fast)} | 1 <= k < n && 1 <= Parent(k) ensures Below(b, k, fast) {
        assert Below(a, k, fast);
      }
    }
    forall p, q {:trigger Leq(b[p], b[q], fast)} | 0 <= p <= q < |b| && n <= q ensures Leq(b[p], b[q], fast) {
      var p' := if p == 0 then n else if p == n then 0 else p;
      if q == n {
        HeapMax(a, p', n + 1, fast);
      } else {
        assert Leq(a[p'], a[q], fast);
      }
    }
  }

  /** The slots behind n hold the largest elements in order, if the names are ordered. */
  ghost predicate SortingIf(ok: bool, a: seq<Symbol>, n: nat, fast: bool) {
    HeapIf(ok, a, 1, n, fast) && (ok ==> SortedFrom(a, n, fast))
  }

  /** The array is left a permutation of what it was, and sorted if sigcmp orders the names. */
  method WaveHeapsort(a: array<Symbol>, fast: bool)
    requires 1 <= a.Length && Named(a[..], false)
    modifies a
    ensures multiset(a[..]) == multiset(old(a[..]))
    ensures Ordered(old(a[..]), fast) ==> SortedFrom(a[..], 0, fast) && Rising(a[..], fast)
  {
    ghost var ok := Ordered(a[..], fast);
    var num := a.Length;
    var i := num / 2 - 1;
    while i > 0
      invariant -1 <= i < num / 2 && HeapIf(ok, a[..], i + 1, num, fast)
      invariant Shuffled(old(a[..]), a[..], num)
    {
      Heapify(a, i, num, fast, ok);
      i := i - 1;
    }
    ShuffledAll(old(a[..]), a[..], num);
    var indx := num - 1;
    assert SortedFrom(a[..], num, fast);
    while true
      invariant 0 <= indx < num && SortingIf(ok, a[..], indx + 1, fast) && multiset(a[..]) == multiset(old(a[..]))
      decreases indx
    {
      if indx == 0 {
        break;
      }
      TakeLargest(a, indx, fast, ok);
      indx := indx - 1;
    }
    if ok {
      LastOne(a[..], fast);
      SortedRises(a[..], fast);
    }
  }

  lemma LastOne(a: seq<Symbol>, fast: bool)
    requires 1 <= |a| && SortedFrom(a, 1, fast) && Ordered(a, fast)
    ensures SortedFrom(a, 0, fast)
  {
    LeqOrder(a, 0, 0, 0, fast);
  }

  method TakeLargest(a: array<Symbol>, indx: nat, fast: bool, ghost ok: bool)
    requires 0 < indx < a.Length && SortingIf(ok, a[..], indx + 1, fast)
    modifies a
    ensures SortingIf(ok, a[..], indx, fast) && multiset(a[..]) == multiset(old(a[..]))
  {
    Heapify(a, 0, indx + 1, fast, ok);
    ghost var b := a[..];
    ShuffledAll(old(a[..]), b, indx + 1);
    var t := a[0];
    a[0] := a[indx];
    a[indx] := t;
    assert a[..] == b[0 := b[indx]][indx := b[0]];
    if ok {
      TailKept(old(a[..]), b, indx + 1, fast);
    }
    RootMoved(ok, b, a[..], indx, fast);
  }

  lemma RootMoved(ok: bool, b: seq<Symbol>, c: seq<Symbol>, n: nat, fast: bool)
    requires 1 <= n < |b| && HeapIf(ok, b, 0, n + 1, fast) && (ok ==> SortedFrom(b, n + 1, fast))
    requires c == b[0 := b[n]][n := b[0]]
    ensures SortingIf(ok, c, n, fast) && multiset(c) == multiset(b)
  {
    Swapped(b, 0, n, n + 1);
    ShuffledAll(b, c, n + 1);
    NamedKept(b, c, n + 1, false);
    if ok {
      TailGrows(b, n, fast);
      OrderedKept(b, c, fast);
    }
  }
}
