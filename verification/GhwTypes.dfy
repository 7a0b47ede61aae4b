/** Signals of nested array and record types, as flat runs of scalar elements. */
module GhwTypes {
  datatype Option<+T> = None | Some(value: T)

  datatype Kind = B2 | E8 | E32 | I32 | I64 | F64 | P32 | P64

  datatype Range = Range(kind: Kind, down: bool, left: int, right: int)

  /** A type as read from the file; the counts are those stored when it was read. */
  datatype Type =
    | Scalar(kind: Kind)
    | SubScalar(base: Type)
    | Unbounded(el: Type)
    | SubArray(el: Type, dims: seq<Type>, rngs: seq<Range>, nbrEl: int)
    | Record(fields: seq<Type>, nbrEl: int)

  /** get_nbr_elements; None where the program aborts. */
  function NbrElements(t: Type): Option<int> {
    match t
    case Scalar(_) => Some(1)
    case SubScalar(_) => Some(1)
    case SubArray(_, _, _, n) => Some(n)
    case Record(_, n) => Some(n)
    case Unbounded(_) => None
  }

  function RangeLength(r: Range): Option<int> {
    match r.kind
    case I32 | E8 | B2 => Some(if r.down then r.left - r.right + 1 else r.right - r.left + 1)
    case _ => None
  }

  /** A range of one of three kinds has so many indices that counting them from its left end stops at its right end; others abort. */
  lemma RangeCounts(r: Range)
    ensures RangeLength(r).None? <==> r.kind != I32 && r.kind != E8 && r.kind != B2
    ensures RangeLength(r).Some? ==> r.right == if r.down then r.left - (RangeLength(r).value - 1) else r.left + (RangeLength(r).value - 1)
  {
  }

  /** ghw_get_base_type for the types that stand for a scalar. */
  function BaseType(t: Type): Option<Type> {
    match t
    case Scalar(_) => Some(t)
    case SubScalar(b) => Some(b)
    case SubArray(el, _, _, _) => Some(Unbounded(el))
    case _ => None
  }

  /* ---------- what the counts should be ---------- */

  ghost predicate RangeOk(r: Range) {
    RangeLength(r).Some? && 0 <= RangeLength(r).value
  }

  /** The number of index combinations of the ranges from d on. */
  function Combos(rngs: seq<Range>, d: nat): nat
    requires d <= |rngs| && forall i :: 0 <= i < |rngs| ==> RangeLength(rngs[i]).Some? && 0 <= RangeLength(rngs[i]).value
    decreases |rngs| - d
  {
    if d == |rngs| then 1 else RangeLength(rngs[d]).value * Combos(rngs, d + 1)
  }

  function Repeat<T>(s: seq<T>, n: nat): (r: seq<T>)
    ensures |r| == n * |s|
  {
    if n == 0 then [] else s + Repeat(s, n - 1)
  }

  /** A nested type with nonnegative range lengths and the right counts. */
  ghost predicate WellFormed(t: Type) {
    match t
    case Scalar(_) => true
    case SubScalar(b) => b.Scalar?
    case Unbounded(_) => false
    case SubArray(el, dims, rngs, n) =>
      && WellFormed(el) && |dims| == |rngs|
      && (forall i {:trigger rngs[i]} :: 0 <= i < |rngs| ==> RangeOk(rngs[i]) && BaseType(dims[i]) == Some(Scalar(rngs[i].kind)))
      && n == |Repeat(Leaves(el), Combos(rngs, 0))|
    case Record(fields, n) =>
      && (forall i {:trigger fields[i]} :: 0 <= i < |fields| ==> WellFormed(fields[i]))
      && n == |FieldLeaves(fields)|
  }

  /** The scalar elements of a type in order. */
  ghost function Leaves(t: Type): seq<Type>
    decreases t, 1, 0
  {
    match t
    case Scalar(_) => [t]
    case SubScalar(_) => [t]
    case Unbounded(_) => []
    case SubArray(el, _, rngs, _) =>
      if forall i :: 0 <= i < |rngs| ==> RangeLength(rngs[i]).Some? && 0 <= RangeLength(rngs[i]).value
      then Repeat(Leaves(el), Combos(rngs, 0)) else []
    case Record(fields, _) => FieldLeaves(fields)
  }

  ghost function FieldLeaves(fields: seq<Type>): seq<Type>
    decreases fields, 1
  {
    if fields == [] then [] else FieldLeaves(fields[..|fields| - 1]) + Leaves(fields[|fields| - 1])
  }

  /** The stored count is the number of scalar elements. */
  lemma CountsLeaves(t: Type)
    requires WellFormed(t)
    ensures NbrElements(t) == Some(|Leaves(t)|)
  {
  }

  /** The count made when an array type is read. */
  method CountArray(el: Type, dims: seq<Type>, rngs: seq<Range>) returns (t: Type)
    requires WellFormed(el) && |dims| == |rngs|
    requires forall i {:trigger rngs[i]} :: 0 <= i < |rngs| ==> RangeOk(rngs[i]) && BaseType(dims[i]) == Some(Scalar(rngs[i].kind))
    ensures t.SubArray? && t == SubArray(el, dims, rngs, t.nbrEl) && WellFormed(t)
  {
    CountsLeaves(el);
    var nbrEl := NbrElements(el).value;
    ghost var n := nbrEl;
    for j := 0 to |rngs|
      invariant nbrEl * Combos(rngs, j) == n * Combos(rngs, 0)
    {
      var len := RangeLength(rngs[j]).value;
      Regroup(nbrEl, len, Combos(rngs, j + 1));
      nbrEl := nbrEl * len;
    }
    t := SubArray(el, dims, rngs, nbrEl);
  }

  lemma Regroup(a: int, b: int, c: int)
    ensures a * (b * c) == (a * b) * c
  {
  }

  /** The count made when a record type is read. */
  method CountRecord(fields: seq<Type>) returns (t: Type)
    requires forall i {:trigger fields[i]} :: 0 <= i < |fields| ==> WellFormed(fields[i])
    ensures t.Record? && t == Record(fields, t.nbrEl) && WellFormed(t)
  {
    var nbrEl := 0;
    for j := 0 to |fields|
      invariant nbrEl == |FieldLeaves(fields[..j])|
    {
      CountsLeaves(fields[j]);
      assert fields[..j + 1][..j] == fields[..j];
      nbrEl := nbrEl + NbrElements(fields[j]).value;
    }
    assert fields[..|fields|] == fields;
    t := Record(fields, nbrEl);
  }

  /* ---------- reading a signal ---------- */

  /** How a read ends: well, at the end of the file, by abort, or by a use of the signal table outside its bounds. */
  datatype Status = Ok | Eof | Abort | Wild

  predicate Readable(t: Type) {
    t.SubScalar? || (t.Scalar? && t.kind in {B2, E8, E32})
  }

  /** A number read from the file, and a size of the signal table. */
  type Word = x: nat | x < 0x1_0000_0000
  type Count = n: nat | n < 0x8000_0000

  /** A signal number against the size of the table: the program compares it as a signed number. */
  function Check(x: Word, nbrSigs: Count): (st: Status)
    ensures st == Ok <==> x < nbrSigs
    ensures st == Wild <==> 0x8000_0000 <= x
  {
    var i := if x < 0x8000_0000 then x else x - 0x1_0000_0000;
    if i >= nbrSigs then Abort else if x >= nbrSigs then Wild else Ok
  }

  /** Reading scalar elements one after the other from the numbers s. */
  datatype Flat = Flat(status: Status, vals: seq<Word>)

  ghost function FlatRead(leaves: seq<Type>, s: seq<Word>, nbrSigs: Count): (r: Flat)
    ensures |r.vals| <= |leaves| && r.vals <= s && (r.status == Ok ==> |r.vals| == |leaves|)
    decreases leaves
  {
    if leaves == [] then Flat(Ok, [])
    else if !Readable(leaves[0]) then Flat(Abort, [])
    else if s == [] then Flat(Eof, [])
    else if Check(s[0], nbrSigs) != Ok then Flat(Check(s[0], nbrSigs), [s[0]])
    else var r := FlatRead(leaves[1..], s[1..], nbrSigs); Flat(r.status, [s[0]] + r.vals)
  }

  /** The program reads subtypes, and scalars of two or more named values; others abort. */
  ghost predicate Element(t: Type) {
    t.SubScalar? || t == Scalar(B2) || t == Scalar(E8) || t == Scalar(E32)
  }

  /** The read gets over the first k elements. */
  ghost predicate GetsTo(leaves: seq<Type>, s: seq<Word>, nbrSigs: Count, k: nat) {
    k <= |leaves| && k <= |s| && forall i {:trigger s[i]} {:trigger leaves[i]} :: 0 <= i < k ==> s[i] < nbrSigs && Element(leaves[i])
  }

  /** Number k is the first one outside the table, and the read comes to it. */
  ghost predicate FirstOutside(leaves: seq<Type>, s: seq<Word>, nbrSigs: Count, k: nat) {
    GetsTo(leaves, s, nbrSigs, k) && k < |leaves| && k < |s| && Element(leaves[k]) && nbrSigs <= s[k]
  }

  lemma GetsOn(leaves: seq<Type>, s: seq<Word>, nbrSigs: Count, k: nat)
    requires leaves != [] && s != [] && 0 < k
    ensures GetsTo(leaves, s, nbrSigs, k) <==> s[0] < nbrSigs && Element(leaves[0]) && GetsTo(leaves[1..], s[1..], nbrSigs, k - 1)
  {
    var l, t := leaves[1..], s[1..];
    assert forall i :: 0 < i < |s| ==> t[i - 1] == s[i];
    assert forall i :: 0 < i < |leaves| ==> l[i - 1] == leaves[i];
    if GetsTo(leaves, s, nbrSigs, k) {
      assert forall i :: 0 <= i < |t| ==> t[i] == s[i + 1];
      assert forall i :: 0 <= i < |l| ==> l[i] == leaves[i + 1];
    }
  }

  /** The read comes to element k and ends there, or is at its end. */
  ghost predicate Stops(leaves: seq<Type>, s: seq<Word>, nbrSigs: Count, k: nat) {
    GetsTo(leaves, s, nbrSigs, k) && (k == |leaves| || !Element(leaves[k]) || k == |s| || nbrSigs <= s[k])
  }

  /**
    How it ends: well behind the last element; by abort at an element that the program does not read;
    at the end of the file; at a number outside the table, which has been stored by then, by abort or,
    from 2^31 on, by a use of the table outside its bounds.
   */
  ghost function EndAt(leaves: seq<Type>, s: seq<Word>, nbrSigs: Count, k: nat): Flat
    requires Stops(leaves, s, nbrSigs, k)
  {
    if k == |leaves| then Flat(Ok, s[..k])
    else if !Element(leaves[k]) then Flat(Abort, s[..k])
    else if k == |s| then Flat(Eof, s[..k])
    else Flat(if 0x8000_0000 <= s[k] then Wild else Abort, s[..k + 1])
  }

  lemma EndOn(leaves: seq<Type>, s: seq<Word>, nbrSigs: Count, k: nat)
    requires leaves != [] && s != [] && 0 < k && Stops(leaves, s, nbrSigs, k)
    ensures Stops(leaves[1..], s[1..], nbrSigs, k - 1)
    ensures EndAt(leaves, s, nbrSigs, k) == Joined(Flat(Ok, [s[0]]), EndAt(leaves[1..], s[1..], nbrSigs, k - 1))
  {
    GetsOn(leaves, s, nbrSigs, k);
    var t := s[1..];
    assert [s[0]] + t[..k - 1] == s[..k];
    if k < |s| {
      assert [s[0]] + t[..k] == s[..k + 1];
    }
  }

  lemma {:induction false} ReadEnds(leaves: seq<Type>, s: seq<Word>, nbrSigs: Count, k: nat)
    requires Stops(leaves, s, nbrSigs, k)
    ensures FlatRead(leaves, s, nbrSigs) == EndAt(leaves, s, nbrSigs, k)
  {
    if k > 0 {
      var l, t := leaves[1..], s[1..];
      GetsOn(leaves, s, nbrSigs, k);
      EndOn(leaves, s, nbrSigs, k);
      ReadEnds(l, t, nbrSigs, k - 1);
      FlatNext(leaves, l, s, nbrSigs);
    }
  }

  /** A read uses the table outside its bounds exactly when the first number outside it is 2^31 or more. */
  lemma WildWhen(leaves: seq<Type>, s: seq<Word>, nbrSigs: Count)
    ensures FlatRead(leaves, s, nbrSigs).status == Wild <==> exists k: nat :: FirstOutside(leaves, s, nbrSigs, k) && 0x8000_0000 <= s[k]
  {
    if k: nat :| FirstOutside(leaves, s, nbrSigs, k) && 0x8000_0000 <= s[k] {
      ReadEnds(leaves, s, nbrSigs, k);
    }
    if FlatRead(leaves, s, nbrSigs).status == Wild {
      var k := EndOf(leaves, s, nbrSigs, 0);
      ReadEnds(leaves, s, nbrSigs, k);
    }
  }

  /** How far the read gets. */
  lemma {:induction false} EndOf(leaves: seq<Type>, s: seq<Word>, nbrSigs: Count, j: nat) returns (k: nat)
    requires GetsTo(leaves, s, nbrSigs, j)
    ensures Stops(leaves, s, nbrSigs, k)
    decreases |leaves| - j
  {
    if j == |leaves| || !Element(leaves[j]) || j == |s| || nbrSigs <= s[j] {
      k := j;
    } else {
      k := EndOf(leaves, s, nbrSigs, j + 1);
    }
  }

  /** One such element, whatever the size of the table. */
  lemma WildRead(t: Type, nbrSigs: Count)
    requires Element(t)
    ensures FlatRead([t], [0x8000_0000], nbrSigs) == Flat(Wild, [0x8000_0000])
  {
    ReadEnds([t], [0x8000_0000], nbrSigs, 0);
  }

  function Joined(r: Flat, q: Flat): Flat {
    if r.status != Ok then r else Flat(q.status, r.vals + q.vals)
  }

  lemma FlatNext(a: seq<Type>, t: seq<Type>, s: seq<Word>, nbrSigs: Count)
    requires a != [] && a[1..] == t && Readable(a[0]) && s != [] && Check(s[0], nbrSigs) == Ok
    ensures FlatRead(a, s, nbrSigs) == Joined(Flat(Ok, [s[0]]), FlatRead(t, s[1..], nbrSigs))
  {
  }

  lemma JoinedTwice(r: Flat, q: Flat, p: Flat)
    requires r.status == Ok
    ensures Joined(r, Joined(q, p)) == Joined(Joined(r, q), p)
  {
    assert r.vals + (q.vals + p.vals) == (r.vals + q.vals) + p.vals;
  }

  lemma {:induction false} FlatConcat(a: seq<Type>, b: seq<Type>, s: seq<Word>, nbrSigs: Count)
    ensures var r := FlatRead(a, s, nbrSigs);
            FlatRead(a + b, s, nbrSigs) == if r.status != Ok then r else Joined(r, FlatRead(b, s[|a|..], nbrSigs))
    decreases a
  {
    if a == [] {
      assert a + b == b && s[0..] == s;
      var q := FlatRead(b, s, nbrSigs);
      assert [] + q.vals == q.vals;
    } else if Readable(a[0]) && s != [] && Check(s[0], nbrSigs) == Ok {
      var t := a[1..];
      FlatNext(a, t, s, nbrSigs);
      assert (a + b)[1..] == t + b && (a + b)[0] == a[0];
      FlatNext(a + b, t + b, s, nbrSigs);
      FlatConcat(t, b, s[1..], nbrSigs);
      var r := FlatRead(t, s[1..], nbrSigs);
      if r.status == Ok {
        assert s[1..][|t|..] == s[|a|..];
        JoinedTwice(Flat(Ok, [s[0]]), r, FlatRead(b, s[|a|..], nbrSigs));
      }
    }
  }

  function Write(s: seq<Word>, off: nat, v: seq<Word>): (r: seq<Word>)
    requires off + |v| <= |s|
    ensures |r| == |s|
  {
    s[..off] + v + s[off + |v|..]
  }

  lemma WriteTwice(s: seq<Word>, off: nat, v: seq<Word>, w: seq<Word>)
    requires off + |v| + |w| <= |s|
    ensures Write(Write(s, off, v), off + |v|, w) == Write(s, off, v + w)
  {
  }

  lemma {:induction false} RepeatSplit<T>(s: seq<T>, a: nat, b: nat)
    ensures Repeat(s, a + b) == Repeat(s, a) + Repeat(s, b)
  {
    if a > 0 {
      RepeatSplit(s, a - 1, b);
      var u, v := Repeat(s, a - 1), Repeat(s, b);
      assert Repeat(s, a + b) == s + Repeat(s, (a - 1) + b) == s + (u + v);
      assert s + (u + v) == (s + u) + v;
    }
  }

  lemma FewerCombos(k: nat, n: nat, size: nat)
    ensures k * size < n * size ==> k < n
    ensures k <= n ==> k * size <= n * size
    ensures k * size >= n * size && k <= n ==> k == n || size == 0
  {
    if k >= n {
      assert (k - n) * size >= 0;
    } else {
      assert (n - k) * size >= 0;
      if size > 0 { assert (n - k) * size > 0; }
    }
  }

  /** The outcome of reading the elements l into sigs at off. */
  ghost predicate ReadInto(l: seq<Type>, s: seq<Word>, nbrSigs: Count, off: nat, a: seq<Word>, a': seq<Word>, st: Status, n: nat) {
    var r := FlatRead(l, s, nbrSigs);
    st == r.status && n == |r.vals| && off + n <= |a| && a' == Write(a, off, r.vals)
  }

  /** Two runs of elements, the second only if the first went well. */
  lemma ReadBoth(l: seq<Type>, m: seq<Type>, s: seq<Word>, nbrSigs: Count, off: nat, a: seq<Word>, a1: seq<Word>, n1: nat, a2: seq<Word>, st: Status, n2: nat)
    requires ReadInto(l, s, nbrSigs, off, a, a1, Ok, n1) && n1 <= |s|
    requires ReadInto(m, s[n1..], nbrSigs, off + n1, a1, a2, st, n2)
    ensures ReadInto(l + m, s, nbrSigs, off, a, a2, st, n1 + n2)
  {
    FlatConcat(l, m, s, nbrSigs);
    WriteTwice(a, off, FlatRead(l, s, nbrSigs).vals, FlatRead(m, s[n1..], nbrSigs).vals);
  }

  lemma ReadStops(l: seq<Type>, m: seq<Type>, s: seq<Word>, nbrSigs: Count, off: nat, a: seq<Word>, a': seq<Word>, st: Status, n: nat)
    requires ReadInto(l, s, nbrSigs, off, a, a', st, n) && st != Ok
    ensures ReadInto(l + m, s, nbrSigs, off, a, a', st, n)
  {
    FlatConcat(l, m, s, nbrSigs);
  }

  /** ghw_read_signal reads the scalar elements of the type one after the other into successive slots. */
  method ReadSignal(stream: seq<Word>, pos: nat, sigs: array<Word>, off: nat, t: Type, nbrSigs: Count) returns (st: Status, n: nat)
    requires WellFormed(t) && pos <= |stream| && off + |Leaves(t)| <= sigs.Length
    modifies sigs
    ensures ReadInto(Leaves(t), stream[pos..], nbrSigs, off, old(sigs[..]), sigs[..], st, n)
    decreases t, 2, 0
  {
    match t
    case Scalar(_) | SubScalar(_) =>
      st, n := ReadScalar(stream, pos, sigs, off, t, nbrSigs);
    case SubArray(el, _, _, len) =>
      st, n := ReadArray(stream, pos, sigs, off, t, nbrSigs);
    case Record(_, _) =>
      st, n := ReadRecord(stream, pos, sigs, off, t, nbrSigs);
  }

  method ReadScalar(stream: seq<Word>, pos: nat, sigs: array<Word>, off: nat, t: Type, nbrSigs: Count) returns (st: Status, n: nat)
    requires (t.Scalar? || t.SubScalar?) && pos <= |stream| && off + 1 <= sigs.Length
    modifies sigs
    ensures ReadInto([t], stream[pos..], nbrSigs, off, old(sigs[..]), sigs[..], st, n)
  {
    n := 0;
    ghost var s := stream[pos..];
    if t.Scalar? && t.kind !in {B2, E8, E32} {
      return Abort, 0;
    }
    if pos == |stream| {
      return Eof, 0;
    }
    var sigEl := stream[pos];
    assert s[0] == sigEl;
    ghost var a := sigs[..];
    sigs[off] := sigEl;
    assert sigs[..] == Write(a, off, [sigEl]);
    n := 1;
    st := Check(sigEl, nbrSigs);
  }

  /** Element k of an array of c elements. */
  method ReadElement(stream: seq<Word>, pos: nat, sigs: array<Word>, off: nat, el: Type, nbrSigs: Count, n0: nat, ghost k: nat, ghost c: nat, ghost a: seq<Word>)
    returns (st: Status, n: nat)
    requires WellFormed(el) && k < c && pos <= |stream| && off + |Repeat(Leaves(el), c)| <= sigs.Length
    requires n0 == |Repeat(Leaves(el), k)| && n0 <= |stream[pos..]|
    requires ReadInto(Repeat(Leaves(el), k), stream[pos..], nbrSigs, off, a, sigs[..], Ok, n0)
    modifies sigs
    ensures n <= |stream[pos..]| && ReadInto(Repeat(Leaves(el), if st == Ok then k + 1 else c), stream[pos..], nbrSigs, off, a, sigs[..], st, n)
    decreases el, 3, 0
  {
    ghost var l, s, a1 := Leaves(el), stream[pos..], sigs[..];
    assert n0 + |l| <= |Repeat(l, c)| by { ElementSplit(l, k, c); }
    assert stream[pos + n0..] == s[n0..];
    var m;
    st, m := ReadSignal(stream, pos + n0, sigs, off + n0, el, nbrSigs);
    n := n0 + m;
    ElementDone(l, k, c, s, nbrSigs, off, a, a1, n0, sigs[..], st, m);
  }

  lemma ElementSplit(l: seq<Type>, k: nat, c: nat)
    requires k < c
    ensures Repeat(l, k + 1) == Repeat(l, k) + l && Repeat(l, c) == Repeat(l, k + 1) + Repeat(l, c - k - 1)
    ensures |Repeat(l, k)| + |l| <= |Repeat(l, c)|
  {
    RepeatSplit(l, k, 1);
    RepeatSplit(l, k + 1, c - k - 1);
    assert Repeat(l, 1) == l;
  }

  lemma ElementDone(l: seq<Type>, k: nat, c: nat, s: seq<Word>, nbrSigs: Count, off: nat, a: seq<Word>, a1: seq<Word>, n0: nat, a2: seq<Word>, st: Status, m: nat)
    requires k < c && n0 <= |s| && ReadInto(Repeat(l, k), s, nbrSigs, off, a, a1, Ok, n0) && ReadInto(l, s[n0..], nbrSigs, off + n0, a1, a2, st, m)
    ensures n0 + m <= |s| && ReadInto(Repeat(l, if st == Ok then k + 1 else c), s, nbrSigs, off, a, a2, st, n0 + m)
  {
    ElementSplit(l, k, c);
    ReadBoth(Repeat(l, k), l, s, nbrSigs, off, a, a1, n0, a2, st, m);
    if st != Ok {
      ReadStops(Repeat(l, k + 1), Repeat(l, c - k - 1), s, nbrSigs, off, a, a2, st, n0 + m);
    }
  }

  method ReadArray(stream: seq<Word>, pos: nat, sigs: array<Word>, off: nat, t: Type, nbrSigs: Count) returns (st: Status, n: nat)
    requires t.SubArray? && WellFormed(t) && pos <= |stream| && off + |Leaves(t)| <= sigs.Length
    modifies sigs
    ensures ReadInto(Leaves(t), stream[pos..], nbrSigs, off, old(sigs[..]), sigs[..], st, n)
    decreases t, 1, 0
  {
    ghost var l, c, a, k := Leaves(t.el), Combos(t.rngs, 0), sigs[..], 0;
    CountsLeaves(t.el);
    var len := t.nbrEl;
    var stride := NbrElements(t.el).value;
    var i := 0;
    n := 0;
    st := Ok;
    while i < len
      invariant 0 <= k <= c && i == n == |Repeat(l, k)| && n <= |stream[pos..]|
      invariant ReadInto(Repeat(l, k), stream[pos..], nbrSigs, off, a, sigs[..], Ok, n)
      decreases c - k
    {
      FewerCombos(k, c, |l|);
      st, n := ReadElement(stream, pos, sigs, off, t.el, nbrSigs, i, k, c, a);
      if st != Ok {
        return;
      }
      i := i + stride;
      k := k + 1;
    }
    st := Ok;
    FewerCombos(k, c, |l|);
    if k != c {
      RepeatSplit(l, k, c - k);
      assert Repeat(l, k) == Repeat(l, c);
    }
  }

  method ReadRecord(stream: seq<Word>, pos: nat, sigs: array<Word>, off: nat, t: Type, nbrSigs: Count) returns (st: Status, n: nat)
    requires t.Record? && WellFormed(t) && pos <= |stream| && off + |Leaves(t)| <= sigs.Length
    modifies sigs
    ensures ReadInto(Leaves(t), stream[pos..], nbrSigs, off, old(sigs[..]), sigs[..], st, n)
    decreases t, 1, 0
  {
    ghost var f, s, a := t.fields, stream[pos..], sigs[..];
    var offs := 0;
    n := 0;
    for i := 0 to |t.fields|
      invariant offs == n == |FieldLeaves(f[..i])| && n <= |s|
      invariant ReadInto(FieldLeaves(f[..i]), s, nbrSigs, off, a, sigs[..], Ok, n)
    {
      st, n := ReadField(stream, pos, sigs, off, t, nbrSigs, n, i, a);
      if st != Ok {
        return;
      }
      CountsLeaves(f[i]);
      FieldsSplit(f, i);
      offs := offs + NbrElements(t.fields[i]).value;
    }
    assert f[..|f|] == f;
    st := Ok;
  }

  /** Field i of a record. */
  method ReadField(stream: seq<Word>, pos: nat, sigs: array<Word>, off: nat, t: Type, nbrSigs: Count, n0: nat, i: nat, ghost a: seq<Word>)
    returns (st: Status, n: nat)
    requires t.Record? && WellFormed(t) && i < |t.fields| && pos <= |stream| && off + |Leaves(t)| <= sigs.Length
    requires n0 == |FieldLeaves(t.fields[..i])| && n0 <= |stream[pos..]|
    requires ReadInto(FieldLeaves(t.fields[..i]), stream[pos..], nbrSigs, off, a, sigs[..], Ok, n0)
    modifies sigs
    ensures n <= |stream[pos..]| && (st == Ok ==> n == |FieldLeaves(t.fields[..i + 1])|)
    ensures ReadInto(FieldLeaves(if st == Ok then t.fields[..i + 1] else t.fields), stream[pos..], nbrSigs, off, a, sigs[..], st, n)
    decreases t, 0, i
  {
    ghost var s, a1 := stream[pos..], sigs[..];
    assert stream[pos + n0..] == s[n0..];
    var el := t.fields[i];
    assert WellFormed(el) && n0 + |Leaves(el)| <= |Leaves(t)| by { FieldFits(t, i); }
    var m;
    st, m := ReadSignal(stream, pos + n0, sigs, off + n0, el, nbrSigs);
    n := n0 + m;
    FieldDone(t.fields, i, s, nbrSigs, off, a, a1, n0, sigs[..], st, m);
  }

  lemma FieldDone(f: seq<Type>, i: nat, s: seq<Word>, nbrSigs: Count, off: nat, a: seq<Word>, a1: seq<Word>, n0: nat, a2: seq<Word>, st: Status, m: nat)
    requires i < |f| && n0 <= |s| && n0 == |FieldLeaves(f[..i])|
    requires ReadInto(FieldLeaves(f[..i]), s, nbrSigs, off, a, a1, Ok, n0) && ReadInto(Leaves(f[i]), s[n0..], nbrSigs, off + n0, a1, a2, st, m)
    ensures n0 + m <= |s| && (st == Ok ==> n0 + m == |FieldLeaves(f[..i + 1])|)
    ensures ReadInto(FieldLeaves(if st == Ok then f[..i + 1] else f), s, nbrSigs, off, a, a2, st, n0 + m)
  {
    FieldsSplit(f, i);
    ReadBoth(FieldLeaves(f[..i]), Leaves(f[i]), s, nbrSigs, off, a, a1, n0, a2, st, m);
    if st != Ok {
      var rest := FieldsAfter(f, i + 1);
      ReadStops(FieldLeaves(f[..i + 1]), rest, s, nbrSigs, off, a, a2, st, n0 + m);
    }
  }

  lemma FieldFits(t: Type, i: nat)
    requires t.Record? && WellFormed(t) && i < |t.fields|
    ensures WellFormed(t.fields[i]) && |FieldLeaves(t.fields[..i])| + |Leaves(t.fields[i])| <= |Leaves(t)|
  {
    FieldsSplit(t.fields, i);
  }

  lemma FieldsSplit(f: seq<Type>, i: nat)
    requires i < |f|
    ensures FieldLeaves(f[..i + 1]) == FieldLeaves(f[..i]) + Leaves(f[i])
    ensures |FieldLeaves(f[..i + 1])| <= |FieldLeaves(f)|
  {
    assert f[..i + 1][..i] == f[..i];
    var r := FieldsAfter(f, i + 1);
  }

  /** The elements of the fields from i on. */
  lemma {:induction false} FieldsAfter(f: seq<Type>, i: nat) returns (r: seq<Type>)
    requires i <= |f|
    ensures FieldLeaves(f) == FieldLeaves(f[..i]) + r
    decreases |f|
  {
    if i == |f| {
      r := [];
      assert f[..i] == f;
    } else {
      var q := FieldsAfter(f[..|f| - 1], i);
      r := q + Leaves(f[|f| - 1]);
      assert f[..|f| - 1][..i] == f[..i];
    }
  }
}
