/** The whole state of a tree as one value, and what insertion and deletion make of it. */
module JrbState {
  import opened JrbStore
  import opened JrbColor
  import opened JrbEdit
  import opened JrbList

  /**
    The fields of the live nodes (the head is one of them) as values, the entries in order,
    gaps[i] the internal node splitting leaves i - 1 and i, leaf ranges and black heights.
   */
  datatype State = State(mem: Links, red: Reds, ext: Caches, leaves: seq<Node>, gaps: seq<Node>, rng: Ranges, bh: Heights) {
    /** Tree, list and cached neighbours agree, up to one stale lext and one stale rext. */
    ghost predicate Framed(head: Node, gl: int, gr: int) {
      && Shape(mem, head, rng, leaves, gaps)
      && Listed(mem, head, leaves)
      && Cached(ext, mem, rng, leaves, gl, gr)
    }

    ghost predicate Painted(head: Node, z: Node, r: Node) {
      Colored(mem, head, red, bh, z, r)
    }

    /** The root is black, or it is n; the head stands for no exception. */
    ghost predicate RootBlack(head: Node, n: Node) {
      && head in mem
      && var r := mem[head].parent;
      r == head || r == n || (r in red && !red[r])
    }

    ghost predicate Valid(head: Node) {
      Framed(head, 0, 0) && Painted(head, head, head)
    }
  }

  /** x is the root where y was; any other root is the root still. */
  ghost predicate Risen(s: State, s': State, h: Node, y: Node, x: Node) {
    && h in s.mem && h in s'.mem && y != h
    && s'.mem[h].parent == if s.mem[h].parent == y then x else s.mem[h].parent
  }

  /** Painting x black and d red. */
  lemma SwapRoot(s: State, s': State, h: Node, y: Node, x: Node, d: Node)
    requires Risen(s, s', h, y, x) && s'.red == s.red[x := false][d := true]
    requires x != d && (d == y || s.mem[h].parent != d)
    ensures s.RootBlack(h, h) ==> s'.RootBlack(h, h)
  {
  }

  /** Painting x black. */
  lemma RiseRoot(s: State, s': State, h: Node, y: Node, x: Node)
    requires Risen(s, s', h, y, x) && s'.red == s.red[x := false]
    ensures s.RootBlack(h, h) ==> s'.RootBlack(h, h)
  {
  }

  /** Painting gp red, two others black. */
  lemma UncleRoot(s: State, s': State, h: Node, p: Node, gp: Node, u: Node)
    requires h in s.mem && s'.mem == s.mem && s'.red == s.red[p := false][gp := true][u := false]
    ensures s.RootBlack(h, h) ==> s'.RootBlack(h, gp)
  {
  }

  /** Painting x as y was, y and d black. */
  lemma FarRoot(s: State, s': State, h: Node, y: Node, x: Node, d: Node)
    requires y in s.red && Risen(s, s', h, y, x) && s'.red == s.red[d := false][x := s.red[y]][y := false]
    requires s.mem[h].parent != x
    ensures s.RootBlack(h, h) ==> s'.RootBlack(h, h)
  {
  }

  function Put<V>(m: map<Node, V>, n: Node, v: V): map<Node, V> {
    m[n := v]
  }

  /* ---------- insertion ---------- */

  /** q is inserted left or right of leaf k. */
  ghost predicate Insertable(s: State, h: Node, k: int, q: Node, w: Node) {
    && s.Valid(h) && 0 <= k < |s.leaves|
    && q !in s.mem && w !in s.mem && q != w && !q.internal && w.internal
  }

  lemma LeafFacts(s: State, h: Node, k: int)
    requires s.Framed(h, 0, 0) && 0 <= k < |s.leaves|
    ensures var t := s.leaves[k];
            t in s.mem && t != h && !t.internal && t in s.rng && s.rng[t].lo == k && s.rng[t].hi == k + 1
    ensures s.mem[s.leaves[k]].parent in s.mem
    ensures s.mem[s.leaves[k]].root <==> s.mem[s.leaves[k]].parent == h
    ensures s.mem[s.leaves[k]].root ==> |s.leaves| == 1
    ensures At(h, s.leaves, k - 1) in s.mem && At(h, s.leaves, k + 1) in s.mem && !At(h, s.leaves, k - 1).internal && !At(h, s.leaves, k + 1).internal
    ensures s.mem[s.leaves[k]].flink == At(h, s.leaves, k + 1) && s.mem[s.leaves[k]].blink == At(h, s.leaves, k - 1)
    ensures h !in s.leaves
    ensures s.mem[h].blink == s.leaves[|s.leaves| - 1] && s.mem[h].flink == s.leaves[0]
  {
    var t := s.leaves[k];
    assert LeafAt(s.mem, h, s.rng, s.leaves, k) && ListAt(s.mem, h, s.leaves, k);
    assert UpAt(s.mem, h, t) && RangeAt(s.mem, s.rng, s.leaves, s.gaps, t);
    if k > 0 { assert LeafAt(s.mem, h, s.rng, s.leaves, k - 1); }
    if k + 1 < |s.leaves| { assert LeafAt(s.mem, h, s.rng, s.leaves, k + 1); }
    forall i | 0 <= i < |s.leaves| ensures s.leaves[i] != h { assert LeafAt(s.mem, h, s.rng, s.leaves, i); }
  }

  lemma InsertPoint(s: State, h: Node, k: int, qLeft: bool)
    requires s.Framed(h, 0, 0) && 0 <= k < |s.leaves|
    ensures var kq := if qLeft then k else k + 1;
            && s.leaves[k] in s.mem
            && At(h, s.leaves, kq) in s.mem && At(h, s.leaves, kq - 1) in s.mem
            && s.mem[At(h, s.leaves, kq)].blink == At(h, s.leaves, kq - 1)
  {
    LeafFacts(s, h, k);
    if k + 1 < |s.leaves| { LeafFacts(s, h, k + 1); }
  }

  /** The memory with q linked into the list in front of leaf kq (or the head). */
  ghost function ListedIn(s: State, h: Node, kq: int, q: Node): Links
    requires At(h, s.leaves, kq) in s.mem && At(h, s.leaves, kq - 1) in s.mem
  {
    LinkIn(s.mem, At(h, s.leaves, kq), At(h, s.leaves, kq - 1), q)
  }

  ghost function LeafLink(s: State, h: Node, kq: int, q: Node): Link {
    Link(false, false, At(h, s.leaves, kq), At(h, s.leaves, kq - 1), q)
  }

  lemma ListedInSame(s: State, h: Node, k: int, q: Node, w: Node, qLeft: bool)
    requires Insertable(s, h, k, q, w)
    ensures var kq := if qLeft then k else k + 1;
            && At(h, s.leaves, kq) in s.mem && At(h, s.leaves, kq - 1) in s.mem
            && SameTree(s.mem, ListedIn(s, h, kq, q))
  {
    LeafFacts(s, h, k);
  }

  ghost function InsertState(s: State, h: Node, k: int, q: Node, w: Node, qLeft: bool): State
    requires Insertable(s, h, k, q, w)
  {
    ListedInSame(s, h, k, q, w, qLeft);
    LeafFacts(s, h, k);
    var kq := if qLeft then k else k + 1;
    var t := s.leaves[k];
    State(Splice(ListedIn(s, h, kq, q), h, t, q, w, qLeft, LeafLink(s, h, kq, q)),
          Put(Put(s.red, q, false), w, true), Put(s.ext, w, if qLeft then Ends(q, t) else Ends(t, q)),
          Inserted(s.leaves, kq, q), Inserted(s.gaps, k + 1, w),
          SpliceRanges(s.rng, k, t, q, w, qLeft), Put(Put(s.bh, q, 1), w, 1))
  }

  lemma InsertTree(s: State, h: Node, k: int, q: Node, w: Node, qLeft: bool)
    requires Insertable(s, h, k, q, w)
    ensures var s' := InsertState(s, h, k, q, w, qLeft);
            && Shape(s'.mem, h, s'.rng, s'.leaves, s'.gaps)
            && Cached(s'.ext, s'.mem, s'.rng, s'.leaves, if qLeft then 0 else k + 2, if qLeft then k else 0)
            && s'.Painted(h, h, w)
  {
    ListedInSame(s, h, k, q, w, qLeft);
    LeafFacts(s, h, k);
    var kq := if qLeft then k else k + 1;
    var t := s.leaves[k];
    var m1, lq := ListedIn(s, h, kq, q), LeafLink(s, h, kq, q);
    SameTreeShape(s.mem, m1, h, s.rng, s.leaves, s.gaps);
    SpliceShape(m1, h, s.rng, s.leaves, s.gaps, t, q, w, qLeft, lq);
    InsertCached(s, h, k, q, w, qLeft);
    InsertPainted(s, h, k, q, w, qLeft);
  }

  lemma InsertCached(s: State, h: Node, k: int, q: Node, w: Node, qLeft: bool)
    requires Insertable(s, h, k, q, w)
    ensures var s' := InsertState(s, h, k, q, w, qLeft);
            Cached(s'.ext, s'.mem, s'.rng, s'.leaves, if qLeft then 0 else k + 2, if qLeft then k else 0)
  {
    ListedInSame(s, h, k, q, w, qLeft);
    LeafFacts(s, h, k);
    var kq := if qLeft then k else k + 1;
    var t := s.leaves[k];
    var m1, lq := ListedIn(s, h, kq, q), LeafLink(s, h, kq, q);
    SameTreeShape(s.mem, m1, h, s.rng, s.leaves, s.gaps);
    SameTreeCached(s.ext, s.mem, m1, s.rng, s.leaves, 0, 0);
    SpliceCached(s.ext, m1, h, s.rng, s.leaves, s.gaps, t, q, w, qLeft, lq);
  }

  lemma InsertPainted(s: State, h: Node, k: int, q: Node, w: Node, qLeft: bool)
    requires Insertable(s, h, k, q, w)
    ensures InsertState(s, h, k, q, w, qLeft).Painted(h, h, w)
  {
    ListedInSame(s, h, k, q, w, qLeft);
    LeafFacts(s, h, k);
    var kq := if qLeft then k else k + 1;
    var t := s.leaves[k];
    var m1, lq := ListedIn(s, h, kq, q), LeafLink(s, h, kq, q);
    SameTreeShape(s.mem, m1, h, s.rng, s.leaves, s.gaps);
    SameTreeColored(s.mem, m1, h, s.red, s.bh, h, h);
    SpliceColored(m1, h, s.red, s.bh, t, q, w, qLeft, lq);
  }

  lemma SameTreeCached(x: Caches, m: Links, m': Links, g: Ranges, L: seq<Node>, gl: int, gr: int)
    requires SameTree(m, m') && Cached(x, m, g, L, gl, gr)
    ensures Cached(x, m', g, L, gl, gr)
  {
  }

  /** Leaf i is the neighbour At(j) of the insertion point only if i is j. */
  lemma OnlyAt(s: State, h: Node, i: int, j: int)
    requires s.Framed(h, 0, 0) && 0 <= i < |s.leaves|
    ensures s.leaves[i] == At(h, s.leaves, j) <==> i == j
  {
    LeafFacts(s, h, i);
    if 0 <= j < |s.leaves| { LeafFacts(s, h, j); }
  }

  lemma InsertListAt(s: State, h: Node, k: int, q: Node, w: Node, qLeft: bool, e: Node)
    requires Insertable(s, h, k, q, w) && e in s.mem && !e.internal
    ensures var kq := if qLeft then k else k + 1; var m' := InsertState(s, h, k, q, w, qLeft).mem;
            && e in m'
            && m'[e].flink == (if e == At(h, s.leaves, kq - 1) then q else s.mem[e].flink)
            && m'[e].blink == (if e == At(h, s.leaves, kq) then q else s.mem[e].blink)
  {
    ListedInSame(s, h, k, q, w, qLeft);
    LeafFacts(s, h, k);
    assert UpAt(s.mem, h, s.leaves[k]);
  }

  lemma InsertList(s: State, h: Node, k: int, q: Node, w: Node, qLeft: bool)
    requires Insertable(s, h, k, q, w)
    ensures var s' := InsertState(s, h, k, q, w, qLeft); Listed(s'.mem, h, s'.leaves)
  {
    ListedInSame(s, h, k, q, w, qLeft);
    LeafFacts(s, h, k);
    var kq := if qLeft then k else k + 1;
    var m' := InsertState(s, h, k, q, w, qLeft).mem;
    InsertListAt(s, h, k, q, w, qLeft, h);
    forall i {:trigger s.leaves[i]} | 0 <= i < |s.leaves|
      ensures && s.leaves[i] in m' && s.leaves[i] in s.mem
              && m'[s.leaves[i]].flink == (if i == kq - 1 then q else s.mem[s.leaves[i]].flink)
              && m'[s.leaves[i]].blink == (if i == kq then q else s.mem[s.leaves[i]].blink)
    {
      LeafFacts(s, h, i);
      InsertListAt(s, h, k, q, w, qLeft, s.leaves[i]);
      OnlyAt(s, h, i, kq);
      OnlyAt(s, h, i, kq - 1);
    }
    InsertLinkage(s, h, k, q, w, qLeft);
    InsertListed(s.mem, h, s.leaves, kq, q, m');
  }

  lemma InsertLinkage(s: State, h: Node, k: int, q: Node, w: Node, qLeft: bool)
    requires Insertable(s, h, k, q, w)
    ensures var kq := if qLeft then k else k + 1; var m' := InsertState(s, h, k, q, w, qLeft).mem;
            q in m' && m'[q].flink == At(h, s.leaves, kq) && m'[q].blink == At(h, s.leaves, kq - 1)
  {
  }

  lemma InsertKept(s: State, h: Node, k: int, q: Node, w: Node, qLeft: bool)
    requires Insertable(s, h, k, q, w)
    ensures var s' := InsertState(s, h, k, q, w, qLeft);
            && s'.mem.Keys == s.mem.Keys + {q, w} && w in s'.red && s'.red[w] && w != h
            && s'.leaves == Inserted(s.leaves, if qLeft then k else k + 1, q)
  {
    LeafFacts(s, h, k);
    ListedInSame(s, h, k, q, w, qLeft);
  }

  /** Only the new node may be a red root. */
  lemma InsertRoot(s: State, h: Node, k: int, q: Node, w: Node, qLeft: bool)
    requires Insertable(s, h, k, q, w) && s.RootBlack(h, h)
    ensures InsertState(s, h, k, q, w, qLeft).RootBlack(h, w)
  {
    ListedInSame(s, h, k, q, w, qLeft);
    LeafFacts(s, h, k);
    assert UpAt(s.mem, h, s.leaves[k]);
  }

  /** The memory with q linked in, live, and leaf k no longer the root. */
  ghost function ReadyState(s: State, h: Node, k: int, q: Node, qLeft: bool): Links
    requires 0 <= k < |s.leaves| && s.leaves[k] in s.mem
    requires var kq := if qLeft then k else k + 1; At(h, s.leaves, kq) in s.mem && At(h, s.leaves, kq - 1) in s.mem
  {
    var kq := if qLeft then k else k + 1;
    var m1 := Put(ListedIn(s, h, kq, q), q, LeafLink(s, h, kq, q));
    Put(m1, s.leaves[k], m1[s.leaves[k]].(root := false))
  }

  lemma InsertStepsAre(s: State, h: Node, k: int, q: Node, w: Node, qLeft: bool)
    requires Insertable(s, h, k, q, w)
    ensures var kq := if qLeft then k else k + 1; At(h, s.leaves, kq) in s.mem && At(h, s.leaves, kq - 1) in s.mem
    ensures var t := s.leaves[k]; t in s.mem && s.mem[t].parent in s.mem
    ensures var t := s.leaves[k];
            MakeSteps(ReadyState(s, h, k, q, qLeft), h, if qLeft then q else t, if qLeft then t else q,
                      s.mem[t].parent, s.mem[t].left, w)
            == InsertState(s, h, k, q, w, qLeft).mem
  {
    LeafFacts(s, h, k);
    ListedInSame(s, h, k, q, w, qLeft);
    var kq := if qLeft then k else k + 1;
    var m1 := ListedIn(s, h, kq, q);
    SameTreeShape(s.mem, m1, h, s.rng, s.leaves, s.gaps);
    MakeStepsAre(m1, h, s.leaves[k], q, w, qLeft, LeafLink(s, h, kq, q));
  }

  /* ---------- deletion ---------- */

  /** Leaf k is taken out of the list. */
  ghost function Unlinked(s: State, h: Node, k: int): Links
    requires At(h, s.leaves, k + 1) in s.mem && At(h, s.leaves, k - 1) in s.mem
  {
    var m1 := Put(s.mem, At(h, s.leaves, k + 1), s.mem[At(h, s.leaves, k + 1)].(blink := At(h, s.leaves, k - 1)));
    Put(m1, At(h, s.leaves, k - 1), m1[At(h, s.leaves, k - 1)].(flink := At(h, s.leaves, k + 1)))
  }

  lemma UnlinkedSame(s: State, h: Node, k: int)
    requires s.Framed(h, 0, 0) && 0 <= k < |s.leaves|
    ensures At(h, s.leaves, k + 1) in s.mem && At(h, s.leaves, k - 1) in s.mem
    ensures SameTree(s.mem, Unlinked(s, h, k))
    ensures Shape(Unlinked(s, h, k), h, s.rng, s.leaves, s.gaps)
  {
    LeafFacts(s, h, k);
    SameTreeShape(s.mem, Unlinked(s, h, k), h, s.rng, s.leaves, s.gaps);
  }

  ghost predicate Deletable(s: State, h: Node, k: int) {
    s.Valid(h) && 0 <= k < |s.leaves| && s.leaves[k] in s.mem && !s.mem[s.leaves[k]].root
  }

  ghost function DeleteState(s: State, h: Node, k: int): State
    requires Deletable(s, h, k)
  {
    UnlinkedSame(s, h, k);
    LeafFacts(s, h, k);
    var n := s.leaves[k];
    CutFits(Unlinked(s, h, k), h, s.rng, s.leaves, s.gaps, n);
    State(Cut(Unlinked(s, h, k), h, n), s.red, s.ext, Removed(s.leaves, k),
          Removed(s.gaps, s.rng[s.mem[n].parent].sp), CutRanges(s.rng, k), s.bh)
  }

  lemma DeleteTree(s: State, h: Node, k: int)
    requires Deletable(s, h, k)
    ensures var s' := DeleteState(s, h, k); var n := s.leaves[k];
            && Shape(s'.mem, h, s'.rng, s'.leaves, s'.gaps)
            && Cached(s'.ext, s'.mem, s'.rng, s'.leaves, if s.mem[n].left then 0 else k, if s.mem[n].left then k else 0)
  {
    UnlinkedSame(s, h, k);
    LeafFacts(s, h, k);
    var n, m1 := s.leaves[k], Unlinked(s, h, k);
    CutFits(m1, h, s.rng, s.leaves, s.gaps, n);
    CutShape(m1, h, s.rng, s.leaves, s.gaps, n);
    SameTreeCached(s.ext, s.mem, m1, s.rng, s.leaves, 0, 0);
    CutCached(s.ext, m1, h, s.rng, s.leaves, s.gaps, n);
  }

  lemma DeleteColored(s: State, h: Node, k: int)
    requires Deletable(s, h, k)
    ensures var n := s.leaves[k]; var p := s.mem[n].parent;
            && p in s.mem && p in s.red
            && var x := if s.red[p] then h else s.mem[p].Kid(!s.mem[n].left); DeleteState(s, h, k).Painted(h, x, x)
  {
    UnlinkedSame(s, h, k);
    LeafFacts(s, h, k);
    var n, m1 := s.leaves[k], Unlinked(s, h, k);
    SameTreeColored(s.mem, m1, h, s.red, s.bh, h, h);
    CutFits(m1, h, s.rng, s.leaves, s.gaps, n);
    CutColored(m1, h, s.rng, s.leaves, s.gaps, n, s.red, s.bh);
  }

  lemma DeleteListAt(s: State, h: Node, k: int, e: Node)
    requires Deletable(s, h, k) && e in s.mem && !e.internal && e != s.leaves[k]
    ensures var m' := DeleteState(s, h, k).mem;
            && e in m'
            && m'[e].flink == (if e == At(h, s.leaves, k - 1) then At(h, s.leaves, k + 1) else s.mem[e].flink)
            && m'[e].blink == (if e == At(h, s.leaves, k + 1) then At(h, s.leaves, k - 1) else s.mem[e].blink)
  {
    UnlinkedSame(s, h, k);
    LeafFacts(s, h, k);
    var n, m1 := s.leaves[k], Unlinked(s, h, k);
    CutFits(m1, h, s.rng, s.leaves, s.gaps, n);
    var p := m1[n].parent;
    assert UpAt(m1, h, p);
  }

  lemma DeleteList(s: State, h: Node, k: int)
    requires Deletable(s, h, k)
    ensures var s' := DeleteState(s, h, k); Listed(s'.mem, h, s'.leaves)
  {
    var m' := DeleteState(s, h, k).mem;
    LeafFacts(s, h, k);
    DeleteListAt(s, h, k, h);
    forall i {:trigger s.leaves[i]} | 0 <= i < |s.leaves| && i != k
      ensures && s.leaves[i] in m' && s.leaves[i] in s.mem
              && m'[s.leaves[i]].flink == (if i == k - 1 then At(h, s.leaves, k + 1) else s.mem[s.leaves[i]].flink)
              && m'[s.leaves[i]].blink == (if i == k + 1 then At(h, s.leaves, k - 1) else s.mem[s.leaves[i]].blink)
    {
      LeafFacts(s, h, i);
      OnlyAt(s, h, i, k);
      OnlyAt(s, h, i, k - 1);
      OnlyAt(s, h, i, k + 1);
      DeleteListAt(s, h, k, s.leaves[i]);
    }
    DeleteListed(s.mem, h, s.leaves, k, m');
  }

  /* ---------- the empty tree ---------- */

  ghost function EmptyState(s: State, h: Node): State
    requires h in s.mem
  {
    s.(mem := map[h := s.mem[h].(flink := h, blink := h, parent := h)], leaves := [], gaps := [], rng := map[], bh := map[])
  }

  lemma EmptyValid(s: State, h: Node)
    requires h in s.mem && !h.internal
    ensures EmptyState(s, h).Valid(h)
  {
  }

  lemma EmptyIs(s: State, h: Node)
    requires s.Framed(h, 0, 0) && s.leaves == []
    ensures s.mem == map[h := s.mem[h]] && s.mem[h].flink == h && s.mem[h].blink == h && s.mem[h].parent == h && !h.internal
  {
  }

  /** The lone entry q is the root. */
  ghost function FirstState(s: State, h: Node, q: Node): State
    requires h in s.mem
  {
    s.(mem := map[h := s.mem[h].(flink := q, blink := q, parent := q), q := Link(false, true, h, h, h)],
       red := Put(s.red, q, false), leaves := [q], gaps := [h], rng := map[q := Rng(0, 0, 1)], bh := map[q := 1])
  }

  ghost function FirstSteps(s: State, h: Node, q: Node, qp: Node): Links
    requires h in s.mem
  {
    var m1 := Put(LinkIn(s.mem, h, h, q), q, Link(false, false, h, h, qp));
    var m2 := m1[h := m1[h].(parent := q)];
    var m3 := m2[q := m2[q].(parent := h)];
    m3[q := m3[q].(root := true)]
  }

  lemma FirstStepsAre(s: State, h: Node, q: Node, qp: Node)
    requires h in s.mem && s.mem == map[h := s.mem[h]] && q != h
    ensures FirstSteps(s, h, q, qp) == FirstState(s, h, q).mem
  {
  }

  lemma FirstValid(s: State, h: Node, q: Node)
    requires h in s.mem && !h.internal && !q.internal && q != h
    ensures FirstState(s, h, q).Valid(h)
  {
    var s' := FirstState(s, h, q);
    assert UpAt(s'.mem, h, q) && RangeAt(s'.mem, s'.rng, s'.leaves, s'.gaps, q) && LeafAt(s'.mem, h, s'.rng, s'.leaves, 0);
    assert ColorAt(s'.mem, s'.red, s'.bh, h, h, q);
  }

  /** The head knows whether there are entries, and the last one; the head is no entry. */
  lemma EntryFacts(s: State, h: Node, k: int)
    requires s.Framed(h, 0, 0) && 0 <= k <= |s.leaves|
    ensures h in s.mem && (s.mem[h].parent == h <==> s.leaves == [])
    ensures s.leaves != [] ==> s.mem[h].blink == s.leaves[|s.leaves| - 1]
    ensures At(h, s.leaves, k) == h <==> k == |s.leaves|
  {
    if k < |s.leaves| { LeafFacts(s, h, k); }
  }

  /** What jrb_delete_node knows after the cut about the sibling of entry k. */
  lemma DeleteFacts(s: State, h: Node, k: int)
    requires Deletable(s, h, k)
    ensures var n := s.leaves[k]; n in s.mem && var p := s.mem[n].parent;
            && p in s.mem && p in s.red && p != h && p.internal
            && s.mem[p].parent in s.mem
            && var b := s.mem[p].Kid(!s.mem[n].left);
            var s' := DeleteState(s, h, k);
            && b in s'.mem && b != h && b in s'.rng && b in s.red && b in s.bh && s.bh[b] == 1
            && (s.red[p] ==> !s.red[b])
            && s'.mem[b].root == s.mem[p].root
            && s'.mem.Keys == s.mem.Keys - {n, p}
            && (s.mem[n].left ==> s'.rng[b].lo == k) && (!s.mem[n].left ==> s'.rng[b].hi == k)
            && (s.mem[p].root ==> (s.mem[n].left ==> k == 0) && (!s.mem[n].left ==> k == |s.leaves| - 1))
  {
    UnlinkedSame(s, h, k);
    LeafFacts(s, h, k);
    var n, m1 := s.leaves[k], Unlinked(s, h, k);
    CutFits(m1, h, s.rng, s.leaves, s.gaps, n);
    var p := s.mem[n].parent;
    assert UpAt(s.mem, h, n);
    var b := s.mem[p].Kid(!s.mem[n].left);
    assert ColorAt(s.mem, s.red, s.bh, h, h, n) && ColorAt(s.mem, s.red, s.bh, h, h, p);
    assert RangeAt(s.mem, s.rng, s.leaves, s.gaps, p);
    DeleteTree(s, h, k);
  }

  /** Cutting a child of the root makes its sibling the root; other cuts keep the root. */
  lemma DeleteRoot(s: State, h: Node, k: int)
    requires Deletable(s, h, k)
    ensures var n := s.leaves[k]; var p := s.mem[n].parent; var s' := DeleteState(s, h, k);
            && p in s.mem && h in s'.mem && s'.red == s.red
            && s'.mem[h].parent == if s.mem[p].root then s.mem[p].Kid(!s.mem[n].left) else s.mem[h].parent
  {
    UnlinkedSame(s, h, k);
    LeafFacts(s, h, k);
    var n, m1 := s.leaves[k], Unlinked(s, h, k);
    CutFits(m1, h, s.rng, s.leaves, s.gaps, n);
    var p := s.mem[n].parent;
    assert UpAt(m1, h, p) && UpAt(s.mem, h, n) && EdgeAt(s.mem, h, p, !s.mem[n].left);
  }

  /** Entry n is a child of the root whose other child is internal. */
  ghost predicate LiftsInner(s: State, n: Node) {
    && n in s.mem && !s.mem[n].root
    && var p := s.mem[n].parent;
    p in s.mem && s.mem[p].root && s.mem[p].Kid(!s.mem[n].left).internal
  }

  /** With three entries one child of the root is an entry and the other one is not. */
  lemma RootOfThree(s: State, h: Node)
    requires s.Framed(h, 0, 0) && |s.leaves| == 3
    ensures h in s.mem && var r := s.mem[h].parent;
            && r in s.mem && r.internal
            && var n := if s.mem[r].flink.internal then s.mem[r].blink else s.mem[r].flink;
            n == s.leaves[if s.mem[r].flink.internal then 2 else 0] && LiftsInner(s, n)
  {
    var r := s.mem[h].parent;
    assert UpAt(s.mem, h, r) && RangeAt(s.mem, s.rng, s.leaves, s.gaps, r);
    SpanLess(s.mem, h, s.rng, s.leaves, s.gaps, r, true);
    SpanLess(s.mem, h, s.rng, s.leaves, s.gaps, r, false);
    var f, e := s.mem[r].flink, s.mem[r].blink;
    assert EdgeAt(s.mem, h, r, true) && EdgeAt(s.mem, h, r, false);
    assert RangeAt(s.mem, s.rng, s.leaves, s.gaps, f) && RangeAt(s.mem, s.rng, s.leaves, s.gaps, e);
    if f.internal { SpanLess(s.mem, h, s.rng, s.leaves, s.gaps, f, true); }
    if e.internal { SpanLess(s.mem, h, s.rng, s.leaves, s.gaps, e, true); }
  }

  lemma OnlyIs(s: State, h: Node, n: Node)
    requires s.Framed(h, 0, 0) && s.leaves == [n]
    ensures n in s.mem && h in s.mem && At(h, s.leaves, 1) in s.mem && At(h, s.leaves, -1) in s.mem && !h.internal
    ensures var m1 := Unlinked(s, h, 0);
            m1[h := m1[h].(parent := h)] - (s.mem.Keys - {h}) == EmptyState(s, h).mem
  {
    LeafFacts(s, h, 0);
  }

  /** A node of black height 1 that may be short: a leaf is black, an internal node red above two leaves. */
  lemma LowNode(s: State, h: Node, z: Node, b: Node)
    requires Shape(s.mem, h, s.rng, s.leaves, s.gaps) && s.Painted(h, z, z)
    requires b in s.mem && b != h && b in s.red && b in s.bh && s.bh[b] == 1 && (z == h || z == b)
    ensures b.internal <==> s.red[b]
    ensures b in s.rng && 0 <= s.rng[b].lo < s.rng[b].hi <= |s.leaves|
    ensures !b.internal ==> s.leaves[s.rng[b].lo] == b && s.rng[b].hi == s.rng[b].lo + 1
    ensures b.internal ==>
              && !s.mem[b].flink.internal && s.leaves[s.rng[b].lo] == s.mem[b].flink
              && !s.mem[b].blink.internal && s.leaves[s.rng[b].hi - 1] == s.mem[b].blink
  {
    assert ColorAt(s.mem, s.red, s.bh, z, z, b) && RangeAt(s.mem, s.rng, s.leaves, s.gaps, b);
    if b.internal {
      SpanLess(s.mem, h, s.rng, s.leaves, s.gaps, b, true);
      SpanLess(s.mem, h, s.rng, s.leaves, s.gaps, b, false);
      LowKid(s, h, z, b, true);
      LowKid(s, h, z, b, false);
    }
  }

  lemma InnerHeight(s: State, h: Node, z: Node, e: Node)
    requires Shape(s.mem, h, s.rng, s.leaves, s.gaps) && s.Painted(h, z, z)
    requires e in s.mem && e != h && e.internal
    ensures e in s.red && e in s.bh && (if s.red[e] then 1 else 2) <= s.bh[e]
  {
    SpanLess(s.mem, h, s.rng, s.leaves, s.gaps, e, true);
    assert ColorAt(s.mem, s.red, s.bh, z, z, e) && ColorAt(s.mem, s.red, s.bh, z, z, s.mem[e].flink);
  }

  lemma LowKid(s: State, h: Node, z: Node, b: Node, l: bool)
    requires Shape(s.mem, h, s.rng, s.leaves, s.gaps) && s.Painted(h, z, z)
    requires b in s.mem && b != h && b.internal && b in s.red && b in s.bh && s.bh[b] == 1 && (z == h || z == b)
    ensures var e := s.mem[b].Kid(l);
            && e in s.mem && !e.internal && e in s.rng && s.rng[e].hi == s.rng[e].lo + 1
            && 0 <= s.rng[e].lo < |s.leaves| && s.leaves[s.rng[e].lo] == e
    ensures s.red[b]
  {
    var e := s.mem[b].Kid(l);
    assert ColorAt(s.mem, s.red, s.bh, z, z, b);
    SpanLess(s.mem, h, s.rng, s.leaves, s.gaps, b, l);
    assert ColorAt(s.mem, s.red, s.bh, z, z, e) && RangeAt(s.mem, s.rng, s.leaves, s.gaps, e);
    if e.internal {
      InnerHeight(s, h, z, e);
    }
  }

  function Pow2(n: int): int {
    if n <= 0 then 1 else 2 * Pow2(n - 1)
  }

  /** A node of black height b has at least 2^(b - 1) leaves. */
  lemma {:induction false} ManyLeaves(s: State, h: Node, n: Node)
    requires s.Valid(h) && n in s.mem && n != h
    ensures n in s.bh && n in s.rng && 1 <= s.bh[n] && Pow2(s.bh[n] - 1) <= Span(s.rng, n)
    decreases if n in s.rng then Span(s.rng, n) else 0
  {
    assert ColorAt(s.mem, s.red, s.bh, h, h, n) && RangeAt(s.mem, s.rng, s.leaves, s.gaps, n);
    if n.internal {
      SpanLess(s.mem, h, s.rng, s.leaves, s.gaps, n, true);
      SpanLess(s.mem, h, s.rng, s.leaves, s.gaps, n, false);
      ManyLeaves(s, h, s.mem[n].flink);
      ManyLeaves(s, h, s.mem[n].blink);
    }
  }
}
