/** Nested groups in a trace list, seen as brackets. */
module Brackets {
  datatype Kind = Plain | Begin | End

  function Step(k: Kind): int {
    match k
    case Plain => 0
    case Begin => 1
    case End => -1
  }

  /** How many groups are open after the first i traces. */
  function Depth(k: seq<Kind>, i: nat): int
    requires i <= |k|
  {
    if i == 0 then 0 else Depth(k, i - 1) + Step(k[i - 1])
  }

  /** Every end closes a group and every group is closed. */
  ghost predicate Balanced(k: seq<Kind>) {
    Depth(k, |k|) == 0 && NoStray(k)
  }

  /** No end without an open begin; groups may stay unclosed. */
  ghost predicate NoStray(k: seq<Kind>) {
    forall i {:trigger Depth(k, i)} :: 0 <= i <= |k| ==> 0 <= Depth(k, i)
  }

  lemma {:induction false} DepthPrefix(k: seq<Kind>, n: nat, i: nat)
    requires i <= n <= |k|
    ensures Depth(k[..n], i) == Depth(k, i)
  {
    if i > 0 {
      DepthPrefix(k, n, i - 1);
    }
  }

  /** The group that begins at j is open at all points from behind j up to e. */
  ghost predicate OpenUpTo(k: seq<Kind>, j: int, e: int) {
    && 0 <= j < e <= |k| && k[j] == Begin
    && forall m {:trigger Depth(k, m)} :: j < m <= e ==> Depth(k, j) < Depth(k, m)
  }

  /** Begin j and end i are one group. */
  ghost predicate Matches(k: seq<Kind>, j: int, i: int) {
    && 0 <= j < i < |k| && k[i] == End
    && OpenUpTo(k, j, i) && Depth(k, i + 1) == Depth(k, j)
  }

  /** Behind an end its own group is closed; at other traces what is open in front of them counts. */
  function Edge(k: seq<Kind>, i: nat): nat
    requires i < |k|
  {
    if k[i] == End then i + 1 else i
  }

  /** j is the innermost group around trace i; -1 says there is none. */
  ghost predicate Encloses(k: seq<Kind>, j: int, i: int) {
    0 <= i < |k| &&
      if j == -1 then Depth(k, Edge(k, i)) <= 0
      else OpenUpTo(k, j, Edge(k, i)) && Depth(k, j) + 1 == Depth(k, Edge(k, i))
  }

  /* ---------- one step of the forward pass ---------- */

  /** After a begin: an end closes it, anything else is inside it. */
  lemma AfterBegin(k: seq<Kind>, i: int, g: int)
    requires 0 < i < |k| && k[i - 1] == Begin && Encloses(k, g, i - 1)
    ensures k[i] == End ==> Matches(k, i - 1, i) && Encloses(k, g, i)
    ensures k[i] != End && 0 <= Depth(k, i - 1) ==> Encloses(k, i - 1, i)
  {
    assert Depth(k, i) == Depth(k, i - 1) + 1;
    if k[i] == End {
      assert Depth(k, i + 1) == Depth(k, i) - 1;
    }
  }

  /** After another trace in group g: an end closes g, anything else is in g as well. */
  lemma AfterOther(k: seq<Kind>, i: int, g: int)
    requires 0 < i < |k| && k[i - 1] != Begin && Encloses(k, g, i - 1)
    ensures k[i] == End && 0 <= g ==> Matches(k, g, i)
    ensures k[i] != End ==> Encloses(k, g, i)
    ensures g == -1 ==> Depth(k, i) <= 0
  {
    assert Depth(k, i) == Depth(k, i - 1) + Step(k[i - 1]);
    if k[i] == End {
      assert Depth(k, i + 1) == Depth(k, i) - 1;
    }
  }

  /** The group around a pair is that around its begin. */
  lemma AroundPair(k: seq<Kind>, j: int, i: int, g: int)
    requires Matches(k, j, i) && Encloses(k, g, j)
    ensures Encloses(k, g, i)
  {
    assert Depth(k, i + 1) == Depth(k, j);
  }

  /** A begin has one end and an end has one begin. */
  lemma MatchUnique(k: seq<Kind>, j: int, i: int, j': int, i': int)
    requires Matches(k, j, i) && Matches(k, j', i')
    ensures j == j' <==> i == i'
  {
    assert Depth(k, i + 1) == Depth(k, j) && Depth(k, i' + 1) == Depth(k, j');
  }

  /* ---------- in a balanced list this is nesting ---------- */

  /** Trace i lies strictly inside the group that begins at j. */
  ghost predicate Inside(k: seq<Kind>, j: int, i: int) {
    exists e {:trigger Matches(k, j, e)} :: Matches(k, j, e) && i < e && j < i
  }

  lemma {:induction false} ClosedBy(k: seq<Kind>, j: int, n: nat) returns (e: int)
    requires 0 <= j < n <= |k| && k[j] == Begin && Depth(k, n) <= Depth(k, j)
    ensures e < n && Matches(k, j, e)
  {
    if m :| j < m < n && Depth(k, m) <= Depth(k, j) {
      e := ClosedBy(k, j, m);
    } else {
      e := n - 1;
      assert Depth(k, n) == Depth(k, e) + Step(k[e]);
      assert Depth(k, j + 1) == Depth(k, j) + 1;
    }
  }

  /** Every group of a balanced list has its end. */
  lemma GroupEnds(k: seq<Kind>, j: int) returns (e: int)
    requires Balanced(k) && 0 <= j < |k| && k[j] == Begin
    ensures Matches(k, j, e)
  {
    assert Depth(k, j) >= 0;
    e := ClosedBy(k, j, |k|);
  }

  lemma OpenIsInside(k: seq<Kind>, j: int, i: int)
    requires Balanced(k) && 0 <= i < |k|
    ensures OpenUpTo(k, j, Edge(k, i)) && j != i ==> Inside(k, j, i)
    ensures Inside(k, j, i) ==> OpenUpTo(k, j, Edge(k, i)) && j < i
  {
    if OpenUpTo(k, j, Edge(k, i)) && j != i {
      var e := GroupEnds(k, j);
      assert Depth(k, e + 1) == Depth(k, j);
      assert i < e;
    }
  }

  lemma {:induction false} SomeOpen(k: seq<Kind>, e: nat) returns (j: int)
    requires e <= |k| && 0 < Depth(k, e) && forall i {:trigger Depth(k, i)} :: 0 <= i <= e ==> 0 <= Depth(k, i)
    ensures OpenUpTo(k, j, e) && Depth(k, j) + 1 == Depth(k, e)
    decreases e
  {
    assert Depth(k, e) == Depth(k, e - 1) + Step(k[e - 1]);
    if k[e - 1] == Begin {
      j := e - 1;
    } else {
      var j1 := SomeOpen(k, e - 1);
      j := j1;
      if k[e - 1] == End {
        j := SomeOpen(k, j1);
      }
    }
  }

  /** The enclosing group is the innermost one around the trace. */
  lemma InnermostGroup(k: seq<Kind>, j: int, i: int)
    requires Balanced(k) && 0 <= i < |k|
    ensures Encloses(k, -1, i) <==> !exists g {:trigger Inside(k, g, i)} :: Inside(k, g, i)
    ensures 0 <= j ==> (Encloses(k, j, i) <==> Inside(k, j, i) && forall g {:trigger Inside(k, g, i)} :: Inside(k, g, i) ==> g <= j)
  {
    var e := Edge(k, i);
    assert 0 <= Depth(k, e);
    forall g {:trigger Inside(k, g, i)} | Inside(k, g, i) ensures OpenUpTo(k, g, e) && g < i {
      OpenIsInside(k, g, i);
    }
    if 0 < Depth(k, e) {
      var g := SomeOpen(k, e);
      assert g != i;
      OpenIsInside(k, g, i);
      assert Inside(k, g, i);
      Nested(k, g, j, i);
    }
    OpenIsInside(k, j, i);
  }

  lemma Nested(k: seq<Kind>, g: int, j: int, i: int)
    requires Balanced(k) && 0 <= i < |k| && Encloses(k, g, i) && 0 <= g != i && Inside(k, g, i)
    ensures 0 <= j && Encloses(k, j, i) ==> j == g
    ensures forall h {:trigger Inside(k, h, i)} :: Inside(k, h, i) ==> h <= g
  {
    forall h {:trigger Inside(k, h, i)} | Inside(k, h, i) ensures h <= g {
      OpenIsInside(k, h, i);
    }
  }

  /* ---------- the longest balanced prefix ---------- */

  /** The first m traces are balanced. */
  ghost predicate BalancedTo(k: seq<Kind>, m: nat)
    requires m <= |k|
  {
    Depth(k, m) == 0 && forall i {:trigger Depth(k, i)} :: 0 <= i <= m ==> 0 <= Depth(k, i)
  }

  lemma BalancedPrefix(k: seq<Kind>, m: nat)
    requires m <= |k|
    ensures Balanced(k[..m]) <==> BalancedTo(k, m)
  {
    forall i: nat {:trigger Depth(k, i)} {:trigger Depth(k[..m], i)} | i <= m ensures Depth(k[..m], i) == Depth(k, i) {
      DepthPrefix(k, m, i);
    }
  }

  /** g is the longest balanced prefix among those of at most n traces. */
  ghost predicate Longest(k: seq<Kind>, n: nat, g: nat) {
    && g <= n <= |k| && BalancedTo(k, g)
    && forall m: nat {:trigger BalancedTo(k, m)} :: g < m <= n ==> !BalancedTo(k, m)
  }

  /** No group has been closed that was not open. */
  ghost predicate NoUnderflow(k: seq<Kind>, n: nat) {
    n <= |k| && forall i {:trigger Depth(k, i)} :: 0 <= i <= n ==> 0 <= Depth(k, i)
  }

  lemma LongestStep(k: seq<Kind>, n: nat, g: nat)
    requires n < |k| && Longest(k, n, g)
    ensures NoUnderflow(k, n + 1) && Depth(k, n + 1) == 0 ==> Longest(k, n + 1, n + 1)
    ensures !(NoUnderflow(k, n + 1) && Depth(k, n + 1) == 0) ==> Longest(k, n + 1, g)
    ensures NoUnderflow(k, n + 1) <==> NoUnderflow(k, n) && 0 <= Depth(k, n + 1)
  {
  }

  /* ---------- lists put together ---------- */

  lemma {:induction false} DepthConcat(a: seq<Kind>, b: seq<Kind>, i: nat)
    requires i <= |b|
    ensures Depth(a + b, |a| + i) == Depth(a, |a|) + Depth(b, i)
  {
    if i == 0 {
      DepthPrefix(a + b, |a|, |a|);
      assert (a + b)[..|a|] == a;
    } else {
      DepthConcat(a, b, i - 1);
    }
  }

  lemma BalancedConcat(a: seq<Kind>, b: seq<Kind>)
    requires Balanced(a) && Balanced(b)
    ensures Balanced(a + b)
  {
    var k := a + b;
    DepthConcat(a, b, |b|);
    forall i {:trigger Depth(k, i)} | 0 <= i <= |k| ensures 0 <= Depth(k, i) {
      if i <= |a| {
        DepthPrefix(k, |a|, i);
        assert k[..|a|] == a;
      } else {
        DepthConcat(a, b, i - |a|);
      }
    }
  }

  /** Balanced traces pasted anywhere into a balanced list leave it balanced. */
  lemma SpliceBalanced(a: seq<Kind>, b: seq<Kind>, c: seq<Kind>)
    requires Balanced(a + c) && Balanced(b)
    ensures Balanced(a + b + c)
  {
    var k, r := a + c, a + b + c;
    assert r == a + (b + c);
    forall i {:trigger Depth(r, i)} | 0 <= i <= |r|
      ensures 0 <= Depth(r, i) && (i == |r| ==> Depth(r, i) == 0)
    {
      if i <= |a| {
        DepthPrefix(r, |a|, i);
        DepthPrefix(k, |a|, i);
        assert r[..|a|] == a == k[..|a|];
        assert 0 <= Depth(k, i);
        if i == |r| {
          assert k == a;
        }
      } else {
        DepthPrefix(k, |a|, |a|);
        assert k[..|a|] == a;
        assert 0 <= Depth(k, |a|);
        DepthConcat(a, b + c, i - |a|);
        if i <= |a| + |b| {
          DepthPrefix(b + c, |b|, i - |a|);
          assert (b + c)[..|b|] == b;
          assert 0 <= Depth(b, i - |a|);
          if i == |r| {
            assert c == [] && k == a;
          }
        } else {
          DepthConcat(b, c, i - |a| - |b|);
          DepthConcat(a, c, i - |a| - |b|);
          assert 0 <= Depth(k, i - |b|);
        }
      }
    }
  }
}
