/** The top-level pieces of a trace list: single traces and whole groups. */
module TraceBlocks {
  import opened Brackets
  import opened TraceList

  /** Where the scan that starts with c groups open first has none open, or -1. */
  function Closing(k: seq<Kind>, i: nat, c: int): (e: int)
    requires i <= |k|
    ensures e == -1 || i <= e < |k|
    decreases |k| - i
  {
    if i == |k| then -1
    else if c + Step(k[i]) == 0 then i
    else Closing(k, i + 1, c + Step(k[i]))
  }

  /** The last trace of the piece that starts at i, or -1 for a group that is never closed. */
  function BlockEnd(q: seq<Trace>, i: nat): (e: int)
    requires i < |q|
    ensures e == -1 || i <= e < |q|
  {
    if q[i].kind == Begin then Closing(Kinds(q), i, 0) else i
  }

  /** The pieces from trace i on; a begin that is never closed is dropped. */
  function Blocks(q: seq<Trace>, i: nat): seq<seq<Trace>>
    requires i <= |q|
    decreases |q| - i
  {
    if i == |q| then []
    else
      var e := BlockEnd(q, i);
      if e < 0 then Blocks(q, i + 1) else [q[i..e + 1]] + Blocks(q, e + 1)
  }

  function Flatten(b: seq<seq<Trace>>): seq<Trace> {
    if b == [] then [] else b[0] + Flatten(b[1..])
  }

  lemma {:induction false} FlattenConcat(a: seq<seq<Trace>>, b: seq<seq<Trace>>)
    ensures Flatten(a + b) == Flatten(a) + Flatten(b)
  {
    if a == [] {
      assert a + b == b;
    } else {
      assert (a + b)[1..] == a[1..] + b;
      FlattenConcat(a[1..], b);
    }
  }

  lemma {:induction false} ClosingDepth(k: seq<Kind>, i: nat, c: int, b: int)
    requires i <= |k| && Depth(k, i) == b + c
    ensures var e := Closing(k, i, c); e >= 0 ==> Depth(k, e + 1) == b && forall m {:trigger Depth(k, m)} :: i < m <= e ==> Depth(k, m) != b
    ensures Closing(k, i, c) < 0 ==> forall m {:trigger Depth(k, m)} :: i < m <= |k| ==> Depth(k, m) != b
    decreases |k| - i
  {
    if i < |k| {
      assert Depth(k, i + 1) == Depth(k, i) + Step(k[i]);
      if c + Step(k[i]) != 0 {
        ClosingDepth(k, i + 1, c + Step(k[i]), b);
      }
    }
  }

  lemma KindsPart(q: seq<Trace>, s: nat, n: nat)
    requires s + n <= |q|
    ensures Kinds(q[s..s + n]) == Kinds(q)[s..s + n]
  {
  }

  /** A stretch of a balanced list between two points with no group open is balanced. */
  lemma PartBalanced(k: seq<Kind>, s: nat, n: nat)
    requires Balanced(k) && s + n <= |k| && Depth(k, s) == 0 && Depth(k, s + n) == 0
    ensures Balanced(k[s..s + n])
    ensures forall i {:trigger Depth(k[s..s + n], i)} :: 0 <= i <= n ==> Depth(k[s..s + n], i) == Depth(k, s + i)
  {
    var p := k[s..s + n];
    forall i {:trigger Depth(p, i)} | 0 <= i <= n ensures Depth(p, i) == Depth(k, s + i) {
      PartDepth(k, s, n, i);
    }
  }

  lemma PartDepth(k: seq<Kind>, s: nat, n: nat, i: nat)
    requires s + n <= |k| && i <= n
    ensures Depth(k, s + i) == Depth(k, s) + Depth(k[s..s + n], i)
  {
    DepthConcat(k[..s], k[s..s + n], i);
    DepthPrefix(k, s, s);
    DepthPrefix(k, s + n, s + i);
    assert k[..s + n] == k[..s] + k[s..s + n];
  }

  /** A single trace or one whole group. */
  ghost predicate BlockOk(b: seq<Trace>) {
    && b != [] && Balanced(Kinds(b)) && (b[0].kind != Begin ==> |b| == 1) && b[0].kind != End
    && forall m {:trigger Depth(Kinds(b), m)} :: 0 < m < |b| ==> Depth(Kinds(b), m) != 0
  }

  ghost predicate BlocksOk(b: seq<seq<Trace>>) {
    forall m {:trigger b[m]} :: 0 <= m < |b| ==> BlockOk(b[m])
  }

  lemma BlockAt(q: seq<Trace>, i: nat)
    requires Balanced(Kinds(q)) && i < |q| && Depth(Kinds(q), i) == 0
    ensures var e := BlockEnd(q, i); i <= e < |q| && Depth(Kinds(q), e + 1) == 0 && BlockOk(q[i..e + 1])
    ensures forall m {:trigger Depth(Kinds(q), m)} :: i < m <= BlockEnd(q, i) ==> Depth(Kinds(q), m) != 0
  {
    var k := Kinds(q);
    assert Depth(k, i + 1) == Step(k[i]) && 0 <= Depth(k, i + 1);
    ClosingDepth(k, i, 0, 0);
    assert Depth(k, |k|) == 0;
    BlockWhole(q, i, BlockEnd(q, i), q[i..BlockEnd(q, i) + 1]);
  }

  /** A stretch between two points with no group open and none such inside is a piece. */
  lemma BlockWhole(q: seq<Trace>, i: nat, e: nat, b: seq<Trace>)
    requires Balanced(Kinds(q)) && i <= e < |q| && Depth(Kinds(q), i) == 0 && Depth(Kinds(q), e + 1) == 0 && b == q[i..e + 1]
    requires (q[i].kind != Begin ==> e == i) && q[i].kind != End
    requires forall m {:trigger Depth(Kinds(q), m)} :: i < m <= e ==> Depth(Kinds(q), m) != 0
    ensures BlockOk(b)
  {
    var n := e + 1 - i;
    KindsPart(q, i, n);
    PartBalanced(Kinds(q), i, n);
    assert q[i..i + n] == b;
    forall m {:trigger Depth(Kinds(b), m)} | 0 < m < |b| ensures Depth(Kinds(b), m) != 0 {
      assert Depth(Kinds(b), m) == Depth(Kinds(q), i + m);
    }
  }

  /** In a balanced list nothing is dropped, and every piece is balanced. */
  lemma {:induction false} BlocksFlat(q: seq<Trace>, i: nat)
    requires Balanced(Kinds(q)) && i <= |q| && Depth(Kinds(q), i) == 0
    ensures Flatten(Blocks(q, i)) == q[i..] && BlocksOk(Blocks(q, i))
    decreases |q| - i
  {
    if i < |q| {
      BlockAt(q, i);
      var e := BlockEnd(q, i);
      BlocksFlat(q, e + 1);
      FirstPiece(q, i, e, q[i..e + 1], Blocks(q, e + 1));
    }
  }

  lemma FirstPiece(q: seq<Trace>, i: nat, e: nat, x: seq<Trace>, b: seq<seq<Trace>>)
    requires i <= e < |q| && x == q[i..e + 1] && Flatten(b) == q[e + 1..] && BlockOk(x) && BlocksOk(b)
    ensures Flatten([x] + b) == q[i..] && BlocksOk([x] + b)
  {
    assert ([x] + b)[1..] == b;
    assert q[i..] == x + q[e + 1..];
    forall m {:trigger ([x] + b)[m]} | 0 <= m < |[x] + b| ensures BlockOk(([x] + b)[m]) {
      assert m > 0 ==> ([x] + b)[m] == b[m - 1];
    }
  }

  /* ---------- moving whole pieces ---------- */

  /** The n traces from s in one list and from s' in another are alike, and no group is open in front of them. */
  ghost predicate Alike(k: seq<Kind>, s: nat, k': seq<Kind>, s': nat, n: nat) {
    && s + n <= |k| && s' + n <= |k'| && k[s..s + n] == k'[s'..s' + n]
    && Depth(k, s) == 0 && Depth(k', s') == 0
  }

  lemma AlikeDepth(k: seq<Kind>, s: nat, k': seq<Kind>, s': nat, n: nat, i: nat)
    requires Alike(k, s, k', s', n) && i <= n
    ensures Depth(k, s + i) == Depth(k', s' + i) && (i < n ==> k[s + i] == k'[s' + i])
  {
    PartDepth(k, s, n, i);
    PartDepth(k', s', n, i);
    if i < n {
      assert k[s..s + n][i] == k[s + i] && k'[s'..s' + n][i] == k'[s' + i];
    }
  }

  lemma OpenMoved(k: seq<Kind>, s: nat, k': seq<Kind>, s': nat, n: nat, j: int, e: nat)
    requires Alike(k, s, k', s', n) && Balanced(k) && s <= e <= s + n && OpenUpTo(k, j, e) && (e == s ==> j >= s)
    ensures s <= j && OpenUpTo(k', j - s + s', e - s + s') && Depth(k, j) == Depth(k', j - s + s')
  {
    assert 0 <= Depth(k, j);
    AlikeDepth(k, s, k', s', n, j - s);
    forall m {:trigger Depth(k', m)} | j - s + s' < m <= e - s + s' ensures Depth(k', j - s + s') < Depth(k', m) {
      AlikeDepth(k, s, k', s', n, m - s');
      assert Depth(k, j) < Depth(k, m - s' + s);
    }
  }

  lemma EnclosesMoved(k: seq<Kind>, s: nat, k': seq<Kind>, s': nat, n: nat, j: int, i: nat)
    requires Alike(k, s, k', s', n) && Balanced(k) && s <= i < s + n && Encloses(k, j, i) && -1 <= j
    ensures if j == -1 then Encloses(k', -1, i - s + s') else s <= j && Encloses(k', j - s + s', i - s + s')
  {
    var e := Edge(k, i);
    EdgeMoved(k, s, k', s', n, i);
    if j >= 0 {
      assert Depth(k, j) < Depth(k, e) && 0 <= Depth(k, j);
      OpenMoved(k, s, k', s', n, j, e);
    }
  }

  lemma EdgeMoved(k: seq<Kind>, s: nat, k': seq<Kind>, s': nat, n: nat, i: nat)
    requires Alike(k, s, k', s', n) && s <= i < s + n
    ensures s <= Edge(k, i) <= s + n && Edge(k', i - s + s') == Edge(k, i) - s + s'
    ensures Depth(k', Edge(k', i - s + s')) == Depth(k, Edge(k, i))
  {
    AlikeDepth(k, s, k', s', n, i - s);
    AlikeDepth(k, s, k', s', n, Edge(k, i) - s);
  }

  lemma MatchesMoved(k: seq<Kind>, s: nat, k': seq<Kind>, s': nat, n: nat, j: int, i: nat)
    requires Alike(k, s, k', s', n) && Balanced(k) && s <= i < s + n && Matches(k, j, i)
    ensures s <= j && Matches(k', j - s + s', i - s + s')
  {
    AlikeDepth(k, s, k', s', n, i - s);
    AlikeDepth(k, s, k', s', n, i + 1 - s);
    assert Depth(k, j) < Depth(k, i) && 0 <= Depth(k, j);
    assert i != s;
    OpenMoved(k, s, k', s', n, j, i);
  }

  lemma {:induction false} FlatBalanced(b: seq<seq<Trace>>)
    requires BlocksOk(b)
    ensures Balanced(Kinds(Flatten(b)))
  {
    if b == [] {
      assert Kinds(Flatten(b)) == [];
    } else {
      FlatBalanced(b[1..]);
      BalancedConcat(Kinds(b[0]), Kinds(Flatten(b[1..])));
      assert Kinds(Flatten(b)) == Kinds(b[0]) + Kinds(Flatten(b[1..]));
    }
  }

  /** Where piece m lies in the list. */
  lemma PlaceOf(b: seq<seq<Trace>>, m: nat) returns (s: nat)
    requires BlocksOk(b) && m < |b|
    ensures s == |Flatten(b[..m])| && s + |b[m]| <= |Flatten(b)| && Flatten(b)[s..s + |b[m]|] == b[m]
    ensures Depth(Kinds(Flatten(b)), s) == 0
  {
    var q, x, y := Flatten(b), Flatten(b[..m]), Flatten(b[m..]);
    s := |x|;
    assert b == b[..m] + b[m..];
    FlattenConcat(b[..m], b[m..]);
    assert b[m..][0] == b[m];
    FlatBalanced(b[..m]);
    assert Kinds(q)[..s] == Kinds(x);
    DepthPrefix(Kinds(q), s, s);
  }

  /** The piece trace i lies in. */
  lemma {:induction false} Locate(b: seq<seq<Trace>>, i: nat) returns (m: nat)
    requires i < |Flatten(b)|
    ensures m < |b| && |Flatten(b[..m])| <= i < |Flatten(b[..m])| + |b[m]|
  {
    if i < |b[0]| {
      m := 0;
    } else {
      var m1 := Locate(b[1..], i - |b[0]|);
      m := m1 + 1;
      assert b[..m][1..] == b[1..][..m1];
    }
  }

  /** Rearranging whole pieces leaves every group and match right. */
  lemma GroupsKept(b: seq<seq<Trace>>, b': seq<seq<Trace>>)
    requires BlocksOk(b) && multiset(b) == multiset(b')
    requires Grouped(Flatten(b), Kinds(Flatten(b)), |Flatten(b)|)
    ensures BlocksOk(b') && Balanced(Kinds(Flatten(b')))
    ensures Grouped(Flatten(b'), Kinds(Flatten(b')), |Flatten(b')|)
  {
    var q, q' := Flatten(b), Flatten(b');
    SameBlocks(b, b');
    FlatBalanced(b);
    FlatBalanced(b');
    forall i: nat {:trigger GroupedAt(q', Kinds(q'), i)} | i < |q'| ensures GroupedAt(q', Kinds(q'), i) {
      GroupKept(b, b', q, q', i);
    }
  }

  lemma SameBlocks(b: seq<seq<Trace>>, b': seq<seq<Trace>>)
    requires BlocksOk(b) && multiset(b) == multiset(b')
    ensures BlocksOk(b')
  {
    forall m {:trigger b'[m]} | 0 <= m < |b'| ensures BlockOk(b'[m]) {
      assert b'[m] in multiset(b');
      assert b'[m] in multiset(b);
    }
  }

  lemma InBoth(b: seq<seq<Trace>>, b': seq<seq<Trace>>, m': nat) returns (m: nat)
    requires multiset(b) == multiset(b') && m' < |b'|
    ensures m < |b| && b[m] == b'[m']
  {
    assert b'[m'] in multiset(b');
    assert b'[m'] in multiset(b);
    m :| 0 <= m < |b| && b[m] == b'[m'];
  }

  /** The same piece lies somewhere in the other list. */
  lemma Counterpart(b: seq<seq<Trace>>, b': seq<seq<Trace>>, q: seq<Trace>, q': seq<Trace>, i': nat) returns (s: nat, s': nat, n: nat)
    requires BlocksOk(b) && BlocksOk(b') && multiset(b) == multiset(b') && q == Flatten(b) && q' == Flatten(b') && i' < |q'|
    ensures s + n <= |q| && s' + n <= |q'| && q[s..s + n] == q'[s'..s' + n]
    ensures Depth(Kinds(q), s) == 0 && Depth(Kinds(q'), s') == 0 && s' <= i' < s' + n
  {
    var m' := Locate(b', i');
    s' := PlaceIn(b', q', m');
    var m := InBoth(b, b', m');
    s := PlaceIn(b, q, m);
    n := |b[m]|;
  }

  lemma PlaceIn(b: seq<seq<Trace>>, q: seq<Trace>, m: nat) returns (s: nat)
    requires BlocksOk(b) && m < |b| && q == Flatten(b)
    ensures s == |Flatten(b[..m])| && s + |b[m]| <= |q| && q[s..s + |b[m]|] == b[m] && Depth(Kinds(q), s) == 0
  {
    s := PlaceOf(b, m);
  }

  lemma GroupKept(b: seq<seq<Trace>>, b': seq<seq<Trace>>, q: seq<Trace>, q': seq<Trace>, i': nat)
    requires BlocksOk(b) && BlocksOk(b') && multiset(b) == multiset(b') && q == Flatten(b) && q' == Flatten(b')
    requires Balanced(Kinds(q)) && Grouped(q, Kinds(q), |q|) && i' < |q'|
    ensures GroupedAt(q', Kinds(q'), i')
  {
    var s, s', n := Counterpart(b, b', q, q', i');
    MovedGroup(q, s, q', s', n, i' - s' + s, i');
  }

  lemma MovedGroup(q: seq<Trace>, s: nat, q': seq<Trace>, s': nat, n: nat, i: nat, i': nat)
    requires s + n <= |q| && s' + n <= |q'| && q[s..s + n] == q'[s'..s' + n]
    requires Depth(Kinds(q), s) == 0 && Depth(Kinds(q'), s') == 0 && Balanced(Kinds(q)) && s <= i < s + n
    requires Grouped(q, Kinds(q), |q|) && i' == i - s + s'
    ensures GroupedAt(q', Kinds(q'), i')
  {
    var k, k' := Kinds(q), Kinds(q');
    KindsPart(q, s, n);
    KindsPart(q', s', n);
    assert GroupedAt(q, k, i);
    GroupMoved(q, k, s, q', k', s', n, i);
    MatchMoved(q, k, s, q', k', s', n, i);
  }

  lemma SameTrace(q: seq<Trace>, s: nat, q': seq<Trace>, s': nat, n: nat, x: nat)
    requires s + n <= |q| && s' + n <= |q'| && q[s..s + n] == q'[s'..s' + n] && s <= x < s + n
    ensures q[x] == q'[x - s + s']
  {
    assert q[x] == q[s..s + n][x - s];
  }

  lemma GroupMoved(q: seq<Trace>, k: seq<Kind>, s: nat, q': seq<Trace>, k': seq<Kind>, s': nat, n: nat, i: nat)
    requires |q| == |k| && |q'| == |k'| && Alike(k, s, k', s', n) && q[s..s + n] == q'[s'..s' + n]
    requires Balanced(k) && s <= i < s + n && GroupIs(q, k, i)
    ensures GroupIs(q', k', i - s + s')
  {
    SameTrace(q, s, q', s', n, i);
    if q[i].grp == null && Encloses(k, -1, i) {
      EnclosesMoved(k, s, k', s', n, -1, i);
    } else {
      var j :| 0 <= j && Encloses(k, j, i) && q[i].grp == q[j];
      EnclosesMoved(k, s, k', s', n, j, i);
      assert j < i;
      SameTrace(q, s, q', s', n, j);
    }
  }

  lemma MatchMoved(q: seq<Trace>, k: seq<Kind>, s: nat, q': seq<Trace>, k': seq<Kind>, s': nat, n: nat, i: nat)
    requires |q| == |k| && |q'| == |k'| && Alike(k, s, k', s', n) && q[s..s + n] == q'[s'..s' + n]
    requires Balanced(k) && s <= i < s + n && MatchIs(q, k, i)
    ensures MatchIs(q', k', i - s + s')
  {
    SameTrace(q, s, q', s', n, i);
    AlikeDepth(k, s, k', s', n, i - s);
    if k[i] == End {
      var j :| Matches(k, j, i) && q[i].match_ == q[j] && q[j].match_ == q[i];
      MatchesMoved(k, s, k', s', n, j, i);
      SameTrace(q, s, q', s', n, j);
    }
  }
}
