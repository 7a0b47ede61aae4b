/** Splicing a new leaf and its internal node into the tree, and cutting them out again. */
module JrbEdit {
  import opened JrbStore
  import opened JrbColor

  /** Only the list fields of leaves and of the head may differ. */
  ghost predicate SameTree(m: Links, m': Links) {
    && m'.Keys == m.Keys
    && forall n {:trigger m'[n]} :: n in m ==>
         && m'[n].left == m[n].left && m'[n].root == m[n].root && m'[n].parent == m[n].parent
         && (n.internal ==> m'[n] == m[n])
  }

  lemma SameTreeShape(m: Links, m': Links, h: Node, g: Ranges, L: seq<Node>, G: seq<Node>)
    requires SameTree(m, m') && Shape(m, h, g, L, G)
    ensures Shape(m', h, g, L, G)
  {
    assert m'[h].parent == m[h].parent;
    forall n {:trigger UpAt(m', h, n)} | n in m' && n != h ensures UpAt(m', h, n) { assert UpAt(m, h, n); }
    forall n, b {:trigger EdgeAt(m', h, n, b)} | n in m' && n.internal ensures EdgeAt(m', h, n, b) { assert EdgeAt(m, h, n, b); }
    forall n {:trigger RangeAt(m', g, L, G, n)} | n in m' && n != h ensures RangeAt(m', g, L, G, n) { assert RangeAt(m, g, L, G, n); }
    forall i {:trigger LeafAt(m', h, g, L, i)} | 0 <= i < |L| ensures LeafAt(m', h, g, L, i) { assert LeafAt(m, h, g, L, i); }
  }

  lemma SameTreeColored(m: Links, m': Links, h: Node, c: Reds, bh: Heights, z: Node, r: Node)
    requires SameTree(m, m') && Colored(m, h, c, bh, z, r)
    ensures Colored(m', h, c, bh, z, r)
  {
    forall n {:trigger ColorAt(m', c, bh, z, r, n)} | n in m' && n != h ensures ColorAt(m', c, bh, z, r, n) {
      assert ColorAt(m, c, bh, z, r, n);
    }
  }

  /* ---------- insertion ---------- */

  /** t is a leaf of the tree, q a new leaf (its list links given), w a new internal node. */
  ghost predicate Spliceable(m: Links, h: Node, t: Node, q: Node, w: Node) {
    && h in m && t in m && t != h && !t.internal && m[t].parent in m
    && q !in m && w !in m && q != w && !q.internal && w.internal
  }

  ghost function Splice(m: Links, h: Node, t: Node, q: Node, w: Node, qLeft: bool, lq: Link): Links
    requires Spliceable(m, h, t, q, w)
  {
    var p := m[t].parent;
    m[p := if m[t].root then m[p].(parent := w) else m[p].SetKid(m[t].left, w)]
     [t := m[t].(left := !qLeft, root := false, parent := w)]
     [q := lq.(left := qLeft, root := false, parent := w)]
     [w := Link(m[t].left && !m[t].root, m[t].root, if qLeft then q else t, if qLeft then t else q, p)]
  }

  /** The pointer writes of mk_new_int one by one. */
  ghost function MakeSteps(m: Links, h: Node, l: Node, r: Node, p: Node, il: bool, w: Node): Links
    requires l in m && r in m && p in m
  {
    var m1 := m[w := Link(false, false, l, r, p)];
    var m2 := m1[l := m1[l].(parent := w)];
    var m3 := m2[r := m2[r].(parent := w)];
    var m4 := m3[l := m3[l].(left := true)];
    var m5 := m4[r := m4[r].(left := false)];
    if p == h then
      var m6 := m5[p := m5[p].(parent := w)];
      m6[w := m6[w].(root := true)]
    else
      var m6 := m5[w := m5[w].(left := il)];
      m6[p := m6[p].SetKid(il, w)]
  }

  lemma MakeStepsAre(m: Links, h: Node, t: Node, q: Node, w: Node, qLeft: bool, lq: Link)
    requires Linked(m, h) && Spliceable(m, h, t, q, w) && !lq.root
    ensures var m1 := m[q := lq]; var m2 := m1[t := m1[t].(root := false)];
            MakeSteps(m2, h, if qLeft then q else t, if qLeft then t else q, m[t].parent, m[t].left, w)
            == Splice(m, h, t, q, w, qLeft, lq)
  {
    assert UpAt(m, h, t);
    var m1 := m[q := lq];
    var m2 := m1[t := m1[t].(root := false)];
    var a := MakeSteps(m2, h, if qLeft then q else t, if qLeft then t else q, m[t].parent, m[t].left, w);
    var b := Splice(m, h, t, q, w, qLeft, lq);
    forall n | n in a ensures n in b && a[n] == b[n] {
    }
  }

  lemma SpliceLinked(m: Links, h: Node, t: Node, q: Node, w: Node, qLeft: bool, lq: Link)
    requires Linked(m, h) && Spliceable(m, h, t, q, w)
    ensures Linked(Splice(m, h, t, q, w, qLeft, lq), h)
  {
    var m' := Splice(m, h, t, q, w, qLeft, lq);
    assert UpAt(m, h, t);
    assert m'[h].parent != h ==> m'[m'[h].parent].root;
    forall n {:trigger UpAt(m', h, n)} | n in m' && n != h ensures UpAt(m', h, n) {
      if n in m { assert UpAt(m, h, n); }
    }
    forall n, b {:trigger EdgeAt(m', h, n, b)} | n in m' && n.internal ensures EdgeAt(m', h, n, b) {
      if n != w { assert EdgeAt(m, h, n, b); }
    }
  }

  function Opened(r: Rng, k: int): Rng {
    Rng(if r.lo <= k then r.lo else r.lo + 1, if r.sp <= k then r.sp else r.sp + 1, if r.hi <= k then r.hi else r.hi + 1)
  }

  ghost function SpliceRanges(g: Ranges, k: int, t: Node, q: Node, w: Node, qLeft: bool): Ranges {
    var lf, rt := Rng(k, k, k + 1), Rng(k + 1, k + 1, k + 2);
    (map n | n in g :: Opened(g[n], k))[t := if qLeft then rt else lf][q := if qLeft then lf else rt][w := Rng(k, k + 1, k + 2)]
  }

  function Inserted<T>(s: seq<T>, k: int, x: T): seq<T>
    requires 0 <= k <= |s|
  {
    s[..k] + [x] + s[k..]
  }

  lemma SpliceRangeLeaf(m: Links, h: Node, g: Ranges, L: seq<Node>, G: seq<Node>,
                        t: Node, q: Node, w: Node, qLeft: bool, lq: Link, n: Node)
    requires Shape(m, h, g, L, G) && Spliceable(m, h, t, q, w) && t in g && 0 <= g[t].lo < |L|
    requires n in m && n != h && n != t && !n.internal
    ensures var k := g[t].lo; var kq := if qLeft then k else k + 1;
            RangeAt(Splice(m, h, t, q, w, qLeft, lq), SpliceRanges(g, k, t, q, w, qLeft),
                    Inserted(L, kq, q), Inserted(G, k + 1, w), n)
  {
    assert RangeAt(m, g, L, G, n) && RangeAt(m, g, L, G, t) && UpAt(m, h, n) && UpAt(m, h, t);
    assert LeafAt(m, h, g, L, g[n].lo);
  }

  lemma SpliceRangeInner(m: Links, h: Node, g: Ranges, L: seq<Node>, G: seq<Node>,
                         t: Node, q: Node, w: Node, qLeft: bool, lq: Link, n: Node)
    requires Shape(m, h, g, L, G) && Spliceable(m, h, t, q, w) && t in g && 0 <= g[t].lo < |L|
    requires n in m && n != h && n.internal
    ensures var k := g[t].lo; var kq := if qLeft then k else k + 1;
            RangeAt(Splice(m, h, t, q, w, qLeft, lq), SpliceRanges(g, k, t, q, w, qLeft),
                    Inserted(L, kq, q), Inserted(G, k + 1, w), n)
  {
    assert RangeAt(m, g, L, G, n) && RangeAt(m, g, L, G, t) && UpAt(m, h, n) && UpAt(m, h, t);
    assert EdgeAt(m, h, n, true) && EdgeAt(m, h, n, false);
    assert RangeAt(m, g, L, G, m[n].flink) && RangeAt(m, g, L, G, m[n].blink);
  }

  lemma SpliceLeaves(m: Links, h: Node, g: Ranges, L: seq<Node>, G: seq<Node>,
                     t: Node, q: Node, w: Node, qLeft: bool, lq: Link, i: int)
    requires Shape(m, h, g, L, G) && Spliceable(m, h, t, q, w) && t in g && 0 <= g[t].lo < |L|
    requires 0 <= i < |L| + 1
    ensures var k := g[t].lo; var kq := if qLeft then k else k + 1;
            LeafAt(Splice(m, h, t, q, w, qLeft, lq), h, SpliceRanges(g, k, t, q, w, qLeft), Inserted(L, kq, q), i)
  {
    var k := g[t].lo;
    var kq := if qLeft then k else k + 1;
    assert RangeAt(m, g, L, G, t);
    if i < kq {
      assert LeafAt(m, h, g, L, i) && RangeAt(m, g, L, G, L[i]);
    } else if i > kq {
      assert LeafAt(m, h, g, L, i - 1) && RangeAt(m, g, L, G, L[i - 1]);
    }
  }

  lemma SpliceShape(m: Links, h: Node, g: Ranges, L: seq<Node>, G: seq<Node>,
                    t: Node, q: Node, w: Node, qLeft: bool, lq: Link)
    requires Shape(m, h, g, L, G) && Spliceable(m, h, t, q, w) && t in g && 0 <= g[t].lo < |L|
    ensures var k := g[t].lo; var kq := if qLeft then k else k + 1;
            Shape(Splice(m, h, t, q, w, qLeft, lq), h, SpliceRanges(g, k, t, q, w, qLeft),
                  Inserted(L, kq, q), Inserted(G, k + 1, w))
  {
    SpliceLinked(m, h, t, q, w, qLeft, lq);
    var k := g[t].lo;
    var m', g' := Splice(m, h, t, q, w, qLeft, lq), SpliceRanges(g, k, t, q, w, qLeft);
    var L', G' := Inserted(L, if qLeft then k else k + 1, q), Inserted(G, k + 1, w);
    assert RangeAt(m, g, L, G, t) && UpAt(m, h, t);
    forall n {:trigger RangeAt(m', g', L', G', n)} | n in m' && n != h ensures RangeAt(m', g', L', G', n) {
      if n in m && n.internal {
        SpliceRangeInner(m, h, g, L, G, t, q, w, qLeft, lq, n);
      } else if n in m && n != t {
        SpliceRangeLeaf(m, h, g, L, G, t, q, w, qLeft, lq, n);
      }
    }
    forall i {:trigger LeafAt(m', h, g', L', i)} | 0 <= i < |L'| ensures LeafAt(m', h, g', L', i) {
      SpliceLeaves(m, h, g, L, G, t, q, w, qLeft, lq, i);
    }
  }

  lemma SpliceColored(m: Links, h: Node, c: Reds, bh: Heights, t: Node, q: Node, w: Node, qLeft: bool, lq: Link)
    requires Linked(m, h) && Spliceable(m, h, t, q, w) && Colored(m, h, c, bh, h, h)
    ensures Colored(Splice(m, h, t, q, w, qLeft, lq), h, c[q := false][w := true], bh[q := 1][w := 1], h, w)
  {
    var m' := Splice(m, h, t, q, w, qLeft, lq);
    var c', bh' := c[q := false][w := true], bh[q := 1][w := 1];
    assert UpAt(m, h, t) && ColorAt(m, c, bh, h, h, t);
    forall n {:trigger ColorAt(m', c', bh', h, w, n)} | n in m' && n != h ensures ColorAt(m', c', bh', h, w, n) {
      if n in m {
        assert ColorAt(m, c, bh, h, h, n);
        if n.internal {
          assert EdgeAt(m, h, n, true) && EdgeAt(m, h, n, false);
        }
      }
    }
  }

  /* ---------- deletion ---------- */

  /** n is a leaf with a parent; its sibling takes the parent's place. */
  ghost predicate Cuttable(m: Links, h: Node, n: Node) {
    && h in m && n in m && n != h && !n.internal && !m[n].root
    && m[n].parent in m && m[n].parent != h && m[n].parent.internal
    && m[m[n].parent].parent in m && m[m[n].parent].Kid(!m[n].left) in m
  }

  ghost function Cut(m: Links, h: Node, n: Node): Links
    requires Cuttable(m, h, n)
  {
    var p := m[n].parent;
    var s := m[p].Kid(!m[n].left);
    var gp := m[p].parent;
    m[gp := if m[p].root then m[gp].(parent := s) else m[gp].SetKid(m[p].left, s)]
     [s := m[s].(left := if m[p].root then m[s].left else m[p].left, root := m[p].root, parent := gp)]
    - {n, p}
  }

  lemma CutFits(m: Links, h: Node, g: Ranges, L: seq<Node>, G: seq<Node>, n: Node)
    requires Shape(m, h, g, L, G) && n in m && n != h && !n.internal && !m[n].root
    ensures Cuttable(m, h, n)
    ensures var p := m[n].parent; var s := m[p].Kid(!m[n].left);
            && s != h && s != n && s != p && m[p].parent != n && m[p].parent != p && m[p].parent != s
            && m[s].parent == p && m[p].Kid(m[n].left) == n
            && n in g && p in g && s in g
            && g[p].hi - g[p].lo == 1 + g[s].hi - g[s].lo && 0 <= g[n].lo < |L| && 2 <= |L|
            && (m[n].left ==> g[p].sp == g[n].lo + 1 && g[s].lo == g[n].lo + 1 && g[p].lo == g[n].lo && g[p].hi == g[s].hi)
            && (!m[n].left ==> g[p].sp == g[n].lo && g[s].hi == g[n].lo && g[p].lo == g[s].lo && g[p].hi == g[n].lo + 1)
            && 0 <= g[p].sp < |G|
  {
    assert UpAt(m, h, n);
    var p := m[n].parent;
    assert EdgeAt(m, h, p, m[n].left) && EdgeAt(m, h, p, !m[n].left) && UpAt(m, h, p);
    assert RangeAt(m, g, L, G, n) && RangeAt(m, g, L, G, p) && RangeAt(m, g, L, G, m[p].Kid(!m[n].left));
    SpanLess(m, h, g, L, G, p, m[n].left);
    SpanLess(m, h, g, L, G, p, !m[n].left);
    if m[p].parent != h {
      SpanLess(m, h, g, L, G, m[p].parent, m[p].left);
    }
  }

  /** The pointer writes of jrb_delete_node that put the sibling in the parent's place. */
  ghost function CutSteps(m: Links, h: Node, s: Node, p: Node): Links
    requires s in m && p in m && m[p].parent in m
  {
    var gp := m[p].parent;
    var m1 := m[s := m[s].(parent := gp)];
    if m[p].root then
      var m2 := m1[gp := m1[gp].(parent := s)];
      m2[s := m2[s].(root := true)]
    else
      var m2 := m1[gp := m1[gp].SetKid(m[p].left, s)];
      m2[s := m2[s].(left := m[p].left)]
  }

  lemma CutStepsAre(m: Links, h: Node, g: Ranges, L: seq<Node>, G: seq<Node>, n: Node)
    requires Shape(m, h, g, L, G) && n in m && n != h && !n.internal && !m[n].root
    ensures Cuttable(m, h, n)
    ensures CutSteps(m, h, m[m[n].parent].Kid(!m[n].left), m[n].parent) - {n, m[n].parent} == Cut(m, h, n)
  {
    CutFits(m, h, g, L, G, n);
    assert EdgeAt(m, h, m[n].parent, !m[n].left);
  }

  lemma CutLinked(m: Links, h: Node, g: Ranges, L: seq<Node>, G: seq<Node>, n: Node)
    requires Shape(m, h, g, L, G) && n in m && n != h && !n.internal && !m[n].root
    ensures Cuttable(m, h, n) && Linked(Cut(m, h, n), h)
  {
    CutFits(m, h, g, L, G, n);
    var p := m[n].parent;
    var s := m[p].Kid(!m[n].left);
    var m' := Cut(m, h, n);
    assert UpAt(m, h, p) && UpAt(m, h, n) && UpAt(m, h, s);
    assert EdgeAt(m, h, p, m[n].left) && EdgeAt(m, h, p, !m[n].left);
    assert m'[h].parent in m';
    forall k {:trigger UpAt(m', h, k)} | k in m' && k != h ensures UpAt(m', h, k) { assert UpAt(m, h, k); }
    forall k, b {:trigger EdgeAt(m', h, k, b)} | k in m' && k.internal ensures EdgeAt(m', h, k, b) { assert EdgeAt(m, h, k, b); }
  }

  function Closed(r: Rng, k: int): Rng {
    Rng(if r.lo <= k then r.lo else r.lo - 1, if r.sp <= k then r.sp else r.sp - 1, if r.hi <= k then r.hi else r.hi - 1)
  }

  ghost function CutRanges(g: Ranges, k: int): Ranges {
    map n | n in g :: Closed(g[n], k)
  }

  function Removed<T>(s: seq<T>, k: int): seq<T>
    requires 0 <= k < |s|
  {
    s[..k] + s[k + 1..]
  }

  /** After the cut the sibling covers what the parent covered. */
  lemma CutSibling(m: Links, h: Node, g: Ranges, L: seq<Node>, G: seq<Node>, n: Node)
    requires Shape(m, h, g, L, G) && n in m && n != h && !n.internal && !m[n].root
    ensures Cuttable(m, h, n)
    ensures var p := m[n].parent; var s := m[p].Kid(!m[n].left);
            && n in g && p in g && s in g
            && Closed(g[s], g[n].lo).lo == Closed(g[p], g[n].lo).lo
            && Closed(g[s], g[n].lo).hi == Closed(g[p], g[n].lo).hi
  {
    CutFits(m, h, g, L, G, n);
    assert RangeAt(m, g, L, G, n) && RangeAt(m, g, L, G, m[n].parent);
  }

  lemma CutRangeLeaf(m: Links, h: Node, g: Ranges, L: seq<Node>, G: seq<Node>, n: Node, k: Node)
    requires Shape(m, h, g, L, G) && n in m && n != h && !n.internal && !m[n].root
    requires k in m && k != h && k != n && !k.internal
    ensures Cuttable(m, h, n) && n in g && m[n].parent in g && 0 <= g[n].lo < |L| && 0 <= g[m[n].parent].sp < |G|
    ensures k in Cut(m, h, n) && RangeAt(Cut(m, h, n), CutRanges(g, g[n].lo), Removed(L, g[n].lo), Removed(G, g[m[n].parent].sp), k)
  {
    CutFits(m, h, g, L, G, n);
    CutSibling(m, h, g, L, G, n);
    assert RangeAt(m, g, L, G, k) && RangeAt(m, g, L, G, n) && RangeAt(m, g, L, G, m[n].parent);
  }

  lemma CutRangeInner(m: Links, h: Node, g: Ranges, L: seq<Node>, G: seq<Node>, n: Node, k: Node)
    requires Shape(m, h, g, L, G) && n in m && n != h && !n.internal && !m[n].root
    requires k in m && k != h && k.internal && k != m[n].parent
    ensures Cuttable(m, h, n) && n in g && m[n].parent in g && 0 <= g[n].lo < |L| && 0 <= g[m[n].parent].sp < |G|
    ensures k in Cut(m, h, n) && RangeAt(Cut(m, h, n), CutRanges(g, g[n].lo), Removed(L, g[n].lo), Removed(G, g[m[n].parent].sp), k)
  {
    CutFits(m, h, g, L, G, n);
    CutSibling(m, h, g, L, G, n);
    var p := m[n].parent;
    var s := m[p].Kid(!m[n].left);
    var m' := Cut(m, h, n);
    assert UpAt(m, h, p) && UpAt(m, h, k);
    assert EdgeAt(m, h, k, true) && EdgeAt(m, h, k, false);
    assert m'[k].root ==> Closed(g[k], g[n].lo).lo == 0 && Closed(g[k], g[n].lo).hi == |L| - 1 by {
      assert RangeAt(m, g, L, G, k) && RangeAt(m, g, L, G, p);
    }
    assert m'[k].flink == if m[k].flink == p then s else m[k].flink;
    assert m'[k].blink == if m[k].blink == p then s else m[k].blink;
    CutInnerRange(m, h, g, L, G, n, k);
  }

  lemma CutInnerRange(m: Links, h: Node, g: Ranges, L: seq<Node>, G: seq<Node>, n: Node, k: Node)
    requires Shape(m, h, g, L, G) && n in m && n != h && !n.internal && !m[n].root
    requires k in m && k != h && k.internal && k != m[n].parent
    requires Cuttable(m, h, n) && n in g && m[n].parent in g && 0 <= g[m[n].parent].sp < |G| && m[n].parent != n
    ensures m[k].flink in g && m[k].blink in g && k in g && 0 <= g[n].lo < |L|
    ensures var i := g[n].lo; var r := Closed(g[k], i);
            && 0 <= r.lo < r.hi <= |L| - 1
            && Closed(g[m[k].flink], i).lo == r.lo && Closed(g[m[k].flink], i).hi == r.sp
            && Closed(g[m[k].blink], i).lo == r.sp && Closed(g[m[k].blink], i).hi == r.hi
            && 0 <= r.sp < |G| - 1 && Removed(G, g[m[n].parent].sp)[r.sp] == k
  {
    assert EdgeAt(m, h, k, true) && EdgeAt(m, h, k, false);
    assert RangeAt(m, g, L, G, k) && RangeAt(m, g, L, G, n) && RangeAt(m, g, L, G, m[n].parent);
    assert RangeAt(m, g, L, G, m[k].flink) && RangeAt(m, g, L, G, m[k].blink);
    CutFits(m, h, g, L, G, n);
  }

  lemma CutShape(m: Links, h: Node, g: Ranges, L: seq<Node>, G: seq<Node>, n: Node)
    requires Shape(m, h, g, L, G) && n in m && n != h && !n.internal && !m[n].root
    ensures Cuttable(m, h, n) && n in g && m[n].parent in g && 0 <= g[n].lo < |L| && 0 <= g[m[n].parent].sp < |G|
    ensures Shape(Cut(m, h, n), h, CutRanges(g, g[n].lo), Removed(L, g[n].lo), Removed(G, g[m[n].parent].sp))
  {
    CutFits(m, h, g, L, G, n);
    CutLinked(m, h, g, L, G, n);
    var m', g' := Cut(m, h, n), CutRanges(g, g[n].lo);
    var L', G' := Removed(L, g[n].lo), Removed(G, g[m[n].parent].sp);
    forall k {:trigger RangeAt(m', g', L', G', k)} | k in m' && k != h ensures RangeAt(m', g', L', G', k) {
      if k.internal {
        CutRangeInner(m, h, g, L, G, n, k);
      } else {
        CutRangeLeaf(m, h, g, L, G, n, k);
      }
    }
    assert UpAt(m, h, m[n].parent) && UpAt(m, h, n);
    assert RangeAt(m, g, L, G, n);
    forall i {:trigger LeafAt(m', h, g', L', i)} | 0 <= i < |L'| ensures LeafAt(m', h, g', L', i) {
      if i < g[n].lo {
        assert LeafAt(m, h, g, L, i);
      } else {
        assert LeafAt(m, h, g, L, i + 1);
      }
    }
  }

  /** Cutting below a black parent leaves the sibling one short, and perhaps red below red. */
  lemma CutColored(m: Links, h: Node, g: Ranges, L: seq<Node>, G: seq<Node>, n: Node, c: Reds, bh: Heights)
    requires Shape(m, h, g, L, G) && n in m && n != h && !n.internal && !m[n].root
    requires Colored(m, h, c, bh, h, h)
    ensures Cuttable(m, h, n) && m[n].parent in c
    ensures var p := m[n].parent; var x := if c[p] then h else m[p].Kid(!m[n].left);
            Colored(Cut(m, h, n), h, c, bh, x, x)
  {
    CutFits(m, h, g, L, G, n);
    var p := m[n].parent;
    var s := m[p].Kid(!m[n].left);
    assert ColorAt(m, c, bh, h, h, p);
    var x := if c[p] then h else s;
    var m' := Cut(m, h, n);
    assert ColorAt(m, c, bh, h, h, n) && UpAt(m, h, p);
    assert EdgeAt(m, h, p, m[n].left) && EdgeAt(m, h, p, !m[n].left);
    forall k {:trigger ColorAt(m', c, bh, x, x, k)} | k in m' && k != h ensures ColorAt(m', c, bh, x, x, k) {
      assert ColorAt(m, c, bh, h, h, k);
      if k.internal {
        assert EdgeAt(m, h, k, true) && EdgeAt(m, h, k, false);
      }
    }
  }

  /** A red node that is one short and stands below a red node is repaired by blackening it. */
  lemma BlackShort(m: Links, h: Node, c: Reds, bh: Heights, s: Node)
    requires Linked(m, h) && s in m && s != h && Colored(m, h, c, bh, s, s) && s in c && s in bh && c[s]
    ensures Colored(m, h, c[s := false], bh[s := bh[s] + 1], h, h)
  {
    var c', bh' := c[s := false], bh[s := bh[s] + 1];
    assert ColorAt(m, c, bh, s, s, s);
    forall n {:trigger ColorAt(m, c', bh', h, h, n)} | n in m && n != h ensures ColorAt(m, c', bh', h, h, n) {
      assert ColorAt(m, c, bh, s, s, n);
      if n.internal {
        assert EdgeAt(m, h, n, true) && EdgeAt(m, h, n, false);
      }
    }
  }
}
