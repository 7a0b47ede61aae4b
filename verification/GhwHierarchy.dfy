/** Building the display hierarchy of a signal from the slots its type was read into. */
module GhwHierarchy {
  import opened GhwTypes

  const UNDEFINED := -1

  /** A hierarchy node; composite ones refer to no signal. */
  datatype Tree = Tree(which: int, children: seq<Tree>)

  predicate Buildable(t: Type) {
    (t.Scalar? && t.kind != E32) || (t.SubScalar? && t.base.Scalar? && t.base.kind != E32)
  }

  ghost predicate AllBuildable(l: seq<Type>) {
    forall i {:trigger l[i]} :: 0 <= i < |l| ==> Buildable(l[i])
  }

  /** Scalars and subtypes of scalars. */
  ghost predicate AllScalar(l: seq<Type>) {
    forall i {:trigger l[i]} :: 0 <= i < |l| ==> l[i].Scalar? || (l[i].SubScalar? && l[i].base.Scalar?)
  }

  /** The elements that cannot be shown are the 32-bit enumerations and their subtypes. */
  lemma BuildableWhen(t: Type)
    requires WellFormed(t)
    ensures AllBuildable(Leaves(t)) <==> forall x {:trigger x in Leaves(t)} :: x in Leaves(t) ==> x != Scalar(E32) && x != SubScalar(Scalar(E32))
  {
    LeavesScalar(t);
    var l := Leaves(t);
    assert AllBuildable(l) ==> forall i :: 0 <= i < |l| ==> Buildable(l[i]);
    assert forall i {:trigger l[i]} :: 0 <= i < |l| ==> l[i] in l;
  }

  lemma {:induction false} LeavesScalar(t: Type)
    requires WellFormed(t)
    ensures AllScalar(Leaves(t))
    decreases t, 1, 0
  {
    match t
    case Scalar(_) =>
    case SubScalar(_) =>
    case SubArray(el, _, rngs, _) =>
      LeavesScalar(el);
      RepeatScalar(Leaves(el), Combos(rngs, 0));
    case Record(fields, _) =>
      FieldsScalar(t, fields);
  }

  lemma {:induction false} RepeatScalar(l: seq<Type>, n: nat)
    requires AllScalar(l)
    ensures AllScalar(Repeat(l, n))
  {
    if n > 0 {
      RepeatScalar(l, n - 1);
    }
  }

  lemma {:induction false} FieldsScalar(t: Type, f: seq<Type>)
    requires t.Record? && f <= t.fields && WellFormed(t)
    ensures AllScalar(FieldLeaves(f))
    decreases t, 0, |f|
  {
    if f != [] {
      FieldsScalar(t, f[..|f| - 1]);
      assert f[|f| - 1] == t.fields[|f| - 1];
      LeavesScalar(t.fields[|f| - 1]);
    }
  }

  /** The signals of the leaves in display order. */
  ghost function Whiches(t: Tree): seq<int>
    decreases t, 0
  {
    if t.children == [] && t.which != UNDEFINED then [t.which] else ListWhiches(t.children)
  }

  ghost function ListWhiches(ts: seq<Tree>): seq<int>
    decreases ts, 1
  {
    if ts == [] then [] else ListWhiches(ts[..|ts| - 1]) + Whiches(ts[|ts| - 1])
  }

  lemma {:induction false} WhichesConcat(a: seq<Tree>, b: seq<Tree>)
    ensures ListWhiches(a + b) == ListWhiches(a) + ListWhiches(b)
  {
    if b == [] {
      assert a + b == a;
    } else {
      assert (a + b)[..|a + b| - 1] == a + b[..|b| - 1];
      WhichesConcat(a, b[..|b| - 1]);
    }
  }

  /** The tree has the nesting of the type. */
  ghost predicate Fits(tree: Tree, t: Type)
    decreases t, 0
  {
    match t
    case Scalar(_) => tree.children == [] && tree.which != UNDEFINED
    case SubScalar(_) => tree.children == [] && tree.which != UNDEFINED
    case Unbounded(_) => false
    case SubArray(el, _, rngs, _) =>
      && tree.which == UNDEFINED
      && (forall i :: 0 <= i < |rngs| ==> RangeLength(rngs[i]).Some? && 0 <= RangeLength(rngs[i]).value)
      && |tree.children| == Combos(rngs, 0)
      && forall i {:trigger tree.children[i]} :: 0 <= i < |tree.children| ==> Fits(tree.children[i], el)
    case Record(fields, _) =>
      && tree.which == UNDEFINED && |tree.children| == |fields|
      && forall i {:trigger fields[i]} :: 0 <= i < |fields| ==> Fits(tree.children[i], fields[i])
  }

  function Slots(sigs: seq<Word>, p: nat, q: nat): (r: seq<int>)
    requires p <= q <= |sigs|
    ensures |r| == q - p
  {
    seq(q - p, i requires 0 <= i < q - p => sigs[p + i])
  }

  lemma SlotsConcat(sigs: seq<Word>, p: nat, q: nat, r: nat)
    requires p <= q <= r <= |sigs|
    ensures Slots(sigs, p, q) + Slots(sigs, q, r) == Slots(sigs, p, r)
  {
  }

  /**
    build_hierarchy_type: takes the slots of the type's scalar elements one after the other; it
    aborts exactly when one of them cannot be shown.
   */
  method BuildType(t: Type, sigs: seq<Word>, sig0: nat) returns (ok: bool, res: Tree, sig: nat)
    requires WellFormed(t) && sig0 + |Leaves(t)| <= |sigs|
    ensures ok <==> AllBuildable(Leaves(t))
    ensures ok ==> sig == sig0 + |Leaves(t)| && Fits(res, t) && Whiches(res) == Slots(sigs, sig0, sig)
    decreases t, 1, 0
  {
    sig := sig0;
    res := Tree(UNDEFINED, []);
    match t
    case SubScalar(b) =>
      ok, res, sig := BuildType(b, sigs, sig0);
      assert Leaves(b) == [b] && Leaves(t) == [t];
      assert Buildable(t) <==> Buildable(b);
      assert AllBuildable([b]) <==> Buildable([b][0]);
      assert AllBuildable([t]) <==> Buildable([t][0]);
    case Scalar(k) =>
      assert AllBuildable([t]) <==> Buildable([t][0]);
      if k == E32 {
        return false, res, sig;
      }
      res := Tree(sigs[sig], []);
      sig := sig + 1;
      ok := true;
    case SubArray(_, _, _, _) =>
      var children;
      ok, children, sig := BuildArray(t, 0, sigs, sig0);
      res := Tree(UNDEFINED, children);
    case Record(_, _) =>
      var children;
      ok, children, sig := BuildRecord(t, sigs, sig0);
      res := Tree(UNDEFINED, children);
  }

  method BuildRecord(t: Type, sigs: seq<Word>, sig0: nat) returns (ok: bool, children: seq<Tree>, sig: nat)
    requires t.Record? && WellFormed(t) && sig0 + |Leaves(t)| <= |sigs|
    ensures ok <==> AllBuildable(Leaves(t))
    ensures ok ==> sig == sig0 + |Leaves(t)| && ListWhiches(children) == Slots(sigs, sig0, sig) && |children| == |t.fields|
    ensures ok ==> forall i {:trigger t.fields[i]} :: 0 <= i < |t.fields| ==> Fits(children[i], t.fields[i])
    decreases t, 0, 0
  {
    ghost var f := t.fields;
    children := [];
    sig := sig0;
    for i := 0 to |t.fields|
      invariant AllBuildable(FieldLeaves(f[..i])) && sig == sig0 + |FieldLeaves(f[..i])|
      invariant sig <= |sigs| && ListWhiches(children) == Slots(sigs, sig0, sig) && |children| == i
      invariant forall j {:trigger f[j]} :: 0 <= j < i ==> Fits(children[j], f[j])
    {
      var c, next;
      FieldsSplit(f, i);
      ok, c, next := BuildType(t.fields[i], sigs, sig);
      if !ok {
        NotBuildable(f, i);
        return;
      }
      AllBoth(FieldLeaves(f[..i]), Leaves(f[i]));
      SlotsConcat(sigs, sig0, sig, next);
      assert (children + [c])[..i] == children;
      children := children + [c];
      sig := next;
    }
    assert f[..|f|] == f;
    ok := true;
  }

  lemma AllBoth(a: seq<Type>, b: seq<Type>)
    ensures AllBuildable(a + b) <==> AllBuildable(a) && AllBuildable(b)
  {
    forall i {:trigger a[i]} | 0 <= i < |a| ensures a[i] == (a + b)[i] { }
    forall i {:trigger b[i]} | 0 <= i < |b| ensures b[i] == (a + b)[|a| + i] { }
  }

  lemma NotBuildable(f: seq<Type>, i: nat)
    requires i < |f| && !AllBuildable(Leaves(f[i]))
    ensures !AllBuildable(FieldLeaves(f))
  {
    FieldsSplit(f, i);
    var r := FieldsAfter(f, i + 1);
    AllBoth(FieldLeaves(f[..i]), Leaves(f[i]));
    AllBoth(FieldLeaves(f[..i + 1]), r);
  }

  lemma {:induction false} AllRepeat(l: seq<Type>, n: nat)
    ensures AllBuildable(Repeat(l, n)) <==> n == 0 || AllBuildable(l)
  {
    if n > 0 {
      AllRepeat(l, n - 1);
      AllBoth(l, Repeat(l, n - 1));
    }
  }

  /** The elements of the array from dimension d on. */
  ghost function Rest(t: Type, d: nat): seq<Type>
    requires t.SubArray? && WellFormed(t) && d <= |t.rngs|
  {
    Repeat(Leaves(t.el), Combos(t.rngs, d))
  }

  /** What building k elements has come to. */
  ghost predicate Built(t: Type, k: nat, sigs: seq<Word>, sig0: nat, sig: nat, res: seq<Tree>)
    requires t.SubArray?
  {
    && sig == sig0 + |Repeat(Leaves(t.el), k)| && sig <= |sigs|
    && ListWhiches(res) == Slots(sigs, sig0, sig) && |res| == k
    && forall i {:trigger res[i]} :: 0 <= i < |res| ==> Fits(res[i], t.el)
  }

  lemma BuiltBoth(t: Type, k: nat, m: nat, sigs: seq<Word>, sig0: nat, sig1: nat, sig2: nat, a: seq<Tree>, b: seq<Tree>)
    requires t.SubArray? && Built(t, k, sigs, sig0, sig1, a) && Built(t, m, sigs, sig1, sig2, b)
    ensures Built(t, k + m, sigs, sig0, sig2, a + b)
  {
    RepeatSplit(Leaves(t.el), k, m);
    WhichesConcat(a, b);
    SlotsConcat(sigs, sig0, sig1, sig2);
  }

  /** build_hierarchy_array: one element for every combination of the indices from dimension dim on. */
  method BuildArray(t: Type, dim: nat, sigs: seq<Word>, sig0: nat) returns (ok: bool, res: seq<Tree>, sig: nat)
    requires t.SubArray? && WellFormed(t) && dim <= |t.rngs| && sig0 + |Rest(t, dim)| <= |sigs|
    ensures ok <==> AllBuildable(Rest(t, dim))
    ensures ok ==> Built(t, Combos(t.rngs, dim), sigs, sig0, sig, res)
    decreases t, 0, |t.rngs| - dim
  {
    sig := sig0;
    res := [];
    if dim == |t.rngs| {
      var c;
      OneElement(t);
      ok, c, sig := BuildType(t.el, sigs, sig0);
      res := [c];
      assert [c][..0] == [];
      return;
    }
    assert RangeOk(t.rngs[dim]);
    var r := t.rngs[dim];
    var len := RangeLength(r).value;
    NoneLeft(t, dim);
    if len <= 0 {
      return true, res, sig;
    }
    ok, res, sig := BuildRange(t, dim, sigs, sig0);
  }

  function Times(k: nat, c: nat): nat {
    if k == 0 then 0 else Times(k - 1, c) + c
  }

  lemma {:induction false} TimesProduct(k: nat, c: nat)
    ensures Times(k, c) == k * c
  {
    if k > 0 {
      TimesProduct(k - 1, c);
      assert k * c == (k - 1) * c + c;
    }
  }

  /** The elements under index number k of dimension dim, behind those of the indices before it. */
  method BuildIndex(t: Type, dim: nat, sigs: seq<Word>, ghost k: nat, ghost sig0: nat, sig1: nat, res0: seq<Tree>)
    returns (ok: bool, res: seq<Tree>, sig: nat)
    requires t.SubArray? && WellFormed(t) && dim < |t.rngs| && sig1 + |Rest(t, dim + 1)| <= |sigs|
    requires Built(t, Times(k, Combos(t.rngs, dim + 1)), sigs, sig0, sig1, res0)
    ensures ok <==> AllBuildable(Rest(t, dim + 1))
    ensures ok ==> Built(t, Times(k + 1, Combos(t.rngs, dim + 1)), sigs, sig0, sig, res)
    decreases t, 0, |t.rngs| - dim, 0
  {
    ghost var c := Combos(t.rngs, dim + 1);
    var more;
    ok, more, sig := BuildArray(t, dim + 1, sigs, sig1);
    res := res0 + more;
    if ok {
      BuiltBoth(t, Times(k, c), c, sigs, sig0, sig1, sig, res0, more);
    }
  }

  /** The loop over the indices of one dimension. */
  method BuildRange(t: Type, dim: nat, sigs: seq<Word>, sig0: nat) returns (ok: bool, res: seq<Tree>, sig: nat)
    requires t.SubArray? && WellFormed(t) && dim < |t.rngs| && sig0 + |Rest(t, dim)| <= |sigs|
    requires RangeOk(t.rngs[dim]) && 0 < RangeLength(t.rngs[dim]).value
    ensures ok <==> AllBuildable(Rest(t, dim))
    ensures ok ==> Built(t, Combos(t.rngs, dim), sigs, sig0, sig, res)
    decreases t, 0, |t.rngs| - dim, 1
  {
    var r := t.rngs[dim];
    ghost var n, c, k := RangeLength(r).value, Combos(t.rngs, dim + 1), 0;
    Bad(t, dim);
    TimesProduct(n, c);
    sig := sig0;
    res := [];
    var v := r.left;
    while true
      invariant 0 <= k < n && v == (if r.down then r.left - k else r.left + k)
      invariant Built(t, Times(k, c), sigs, sig0, sig, res) && (k > 0 ==> AllBuildable(Rest(t, dim + 1)))
      decreases n - k
    {
      Fewer(t, dim, k, n);
      ok, res, sig := BuildIndex(t, dim, sigs, k, sig0, sig, res);
      if !ok {
        return;
      }
      k := k + 1;
      if v == r.right {
        break;
      }
      v := if r.down then v - 1 else v + 1;
    }
  }

  lemma OneElement(t: Type)
    requires t.SubArray? && WellFormed(t)
    ensures Rest(t, |t.rngs|) == Leaves(t.el) && Repeat(Leaves(t.el), 1) == Leaves(t.el)
  {
  }

  lemma NoneLeft(t: Type, dim: nat)
    requires t.SubArray? && WellFormed(t) && dim < |t.rngs|
    ensures RangeLength(t.rngs[dim]).Some? && (RangeLength(t.rngs[dim]).value == 0 ==> Rest(t, dim) == [] && Combos(t.rngs, dim) == 0)
  {
    assert RangeOk(t.rngs[dim]);
  }

  lemma Fewer(t: Type, dim: nat, k: nat, n: nat)
    requires t.SubArray? && WellFormed(t) && dim < |t.rngs| && RangeOk(t.rngs[dim]) && n == RangeLength(t.rngs[dim]).value && k < n
    ensures |Repeat(Leaves(t.el), Times(k, Combos(t.rngs, dim + 1)))| + |Rest(t, dim + 1)| <= |Rest(t, dim)|
  {
    var c, l := Combos(t.rngs, dim + 1), Leaves(t.el);
    RepeatSplit(l, Times(k, c), c);
    TimesProduct(k + 1, c);
    FewerCombos(k + 1, n, c);
    RepeatSplit(l, Times(k + 1, c), n * c - Times(k + 1, c));
  }

  /** One dimension more or less does not matter for what can be shown, if it has any index. */
  lemma Bad(t: Type, dim: nat)
    requires t.SubArray? && WellFormed(t) && dim < |t.rngs| && RangeOk(t.rngs[dim]) && 0 < RangeLength(t.rngs[dim]).value
    ensures AllBuildable(Rest(t, dim)) <==> AllBuildable(Rest(t, dim + 1))
  {
    var c, n, l := Combos(t.rngs, dim + 1), RangeLength(t.rngs[dim]).value, Leaves(t.el);
    AllRepeat(l, c);
    AllRepeat(l, n * c);
    if c > 0 {
      assert n * c > 0;
    } else {
      assert n * c == 0;
    }
  }

  lemma WrittenAll(a: seq<Word>, vals: seq<Word>)
    requires |a| == |vals| + 1 && a[|vals|] == 0
    ensures Write(a, 0, vals) == vals + [0]
  {
    assert a[0 + |vals|..] == [0];
  }

  /**
    A signal that is read whole and can be shown is built from just its own slots, each used once
    and in order, so that the slot behind them is the sentinel and the check for it never aborts.
   */
  method ReadAndBuild(stream: seq<Word>, pos: nat, t: Type, nbrSigs: Count) returns (st: Status, sigs: array<Word>, ok: bool, tree: Tree, ptr: nat)
    requires WellFormed(t) && pos <= |stream|
    ensures st == FlatRead(Leaves(t), stream[pos..], nbrSigs).status
    ensures st == Ok ==> sigs[..] == FlatRead(Leaves(t), stream[pos..], nbrSigs).vals + [0] && (ok <==> AllBuildable(Leaves(t)))
    ensures st == Ok && ok ==> ptr == sigs.Length - 1 && Fits(tree, t) && Whiches(tree) == Slots(sigs[..], 0, ptr)
  {
    CountsLeaves(t);
    var nbrEl := NbrElements(t).value;
    sigs := new Word[nbrEl + 1](_ => 0);
    var n;
    ghost var a := sigs[..];
    st, n := ReadSignal(stream, pos, sigs, 0, t, nbrSigs);
    ok, tree, ptr := false, Tree(UNDEFINED, []), 0;
    if st == Ok {
      ghost var vals := FlatRead(Leaves(t), stream[pos..], nbrSigs).vals;
      WrittenAll(a, vals);
      ok, tree, ptr := BuildType(t, sigs[..], 0);
      if ok && sigs[ptr] != 0 {
        ok := false;
      }
    }
  }
}
