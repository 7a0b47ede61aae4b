/** The circular doubly linked list of the leaves, and the cached neighbouring leaves. */
module JrbList {
  import opened JrbStore
  import opened JrbEdit

  ghost predicate ListAt(m: Links, h: Node, L: seq<Node>, i: int)
    requires 0 <= i < |L|
  {
    && L[i] in m
    && m[L[i]].flink == (if i + 1 < |L| then L[i + 1] else h)
    && m[L[i]].blink == (if 0 < i then L[i - 1] else h)
  }

  ghost predicate Listed(m: Links, h: Node, L: seq<Node>) {
    && h in m
    && m[h].flink == (if L == [] then h else L[0])
    && m[h].blink == (if L == [] then h else L[|L| - 1])
    && (forall i {:trigger ListAt(m, h, L, i)} :: 0 <= i < |L| ==> ListAt(m, h, L, i))
  }

  ghost predicate SameList(m: Links, m': Links, L: seq<Node>, h: Node) {
    && h in m && h in m' && m'[h].flink == m[h].flink && m'[h].blink == m[h].blink
    && (forall i {:trigger L[i]} :: 0 <= i < |L| ==>
          L[i] in m && L[i] in m' && m'[L[i]].flink == m[L[i]].flink && m'[L[i]].blink == m[L[i]].blink)
  }

  lemma SameListListed(m: Links, m': Links, L: seq<Node>, h: Node)
    requires Listed(m, h, L) && SameList(m, m', L, h)
    ensures Listed(m', h, L)
  {
    forall i {:trigger ListAt(m', h, L, i)} | 0 <= i < |L| ensures ListAt(m', h, L, i) {
      assert ListAt(m, h, L, i);
    }
  }

  lemma RotateListed(m: Links, h: Node, g: Ranges, L: seq<Node>, G: seq<Node>, y: Node, l: bool)
    requires Shape(m, h, g, L, G) && Listed(m, h, L)
    requires Fits(m, y, l) && Distinct(m, h, y, l)
    ensures Listed(Rotate(m, y, l), h, L)
  {
    assert UpAt(m, h, y);
    assert m[y].parent != h ==> m[y].parent.internal;
    forall i {:trigger L[i]} | 0 <= i < |L|
      ensures var m' := Rotate(m, y, l);
              L[i] in m && L[i] in m' && m'[L[i]].flink == m[L[i]].flink && m'[L[i]].blink == m[L[i]].blink
    {
      assert LeafAt(m, h, g, L, i);
    }
    SameListListed(m, Rotate(m, y, l), L, h);
  }

  /** The node a new leaf at position k is linked in front of. */
  ghost function At(h: Node, L: seq<Node>, k: int): Node {
    if 0 <= k < |L| then L[k] else h
  }

  /** Linking a leaf q in front of u = At(k), after last = At(k - 1). */
  ghost function LinkIn(m: Links, u: Node, last: Node, q: Node): Links
    requires u in m && last in m
  {
    var m1 := m[u := m[u].(blink := q)];
    m1[last := m1[last].(flink := q)]
  }

  ghost predicate Linkage(m: Links, h: Node, L: seq<Node>, k: int, q: Node, m': Links)
    requires 0 <= k <= |L|
  {
    && q in m' && m'[q].flink == At(h, L, k) && m'[q].blink == At(h, L, k - 1)
    && h in m' && h in m
    && m'[h].flink == (if At(h, L, k - 1) == h then q else m[h].flink)
    && m'[h].blink == (if At(h, L, k) == h then q else m[h].blink)
    && (forall i {:trigger L[i]} :: 0 <= i < |L| ==>
          && L[i] in m' && L[i] in m
          && m'[L[i]].flink == (if i == k - 1 then q else m[L[i]].flink)
          && m'[L[i]].blink == (if i == k then q else m[L[i]].blink))
  }

  lemma InsertListed(m: Links, h: Node, L: seq<Node>, k: int, q: Node, m': Links)
    requires 0 <= k <= |L| && Listed(m, h, L) && Linkage(m, h, L, k, q, m')
    requires h !in L
    ensures Listed(m', h, Inserted(L, k, q))
  {
    var L' := Inserted(L, k, q);
    forall i {:trigger ListAt(m', h, L', i)} | 0 <= i < |L'| ensures ListAt(m', h, L', i) {
      if i < k {
        assert ListAt(m, h, L, i);
      } else if k < i {
        assert ListAt(m, h, L, i - 1);
      }
    }
  }

  /** Unlinking leaf k. */
  ghost predicate Unlinkage(m: Links, h: Node, L: seq<Node>, k: int, m': Links)
    requires 0 <= k < |L|
  {
    && h in m' && h in m
    && m'[h].flink == (if k == 0 then At(h, L, 1) else m[h].flink)
    && m'[h].blink == (if k == |L| - 1 then At(h, L, k - 1) else m[h].blink)
    && (forall i {:trigger L[i]} :: 0 <= i < |L| && i != k ==>
          && L[i] in m' && L[i] in m
          && m'[L[i]].flink == (if i == k - 1 then At(h, L, k + 1) else m[L[i]].flink)
          && m'[L[i]].blink == (if i == k + 1 then At(h, L, k - 1) else m[L[i]].blink))
  }

  lemma DeleteListed(m: Links, h: Node, L: seq<Node>, k: int, m': Links)
    requires 0 <= k < |L| && Listed(m, h, L) && Unlinkage(m, h, L, k, m')
    requires h !in L
    ensures Listed(m', h, Removed(L, k))
  {
    var L' := Removed(L, k);
    forall i {:trigger ListAt(m', h, L', i)} | 0 <= i < |L'| ensures ListAt(m', h, L', i) {
      if i < k {
        assert ListAt(m, h, L, i);
      } else {
        assert ListAt(m, h, L, i + 1);
      }
    }
  }

  /* ---------- cached neighbours ---------- */

  datatype Ends = Ends(lext: Node, rext: Node)
  type Caches = map<Node, Ends>

  /**
    lext/rext are the leaves just left and right of the gap between the two subtrees; the
    lext of the node at gap gl and the rext of the node at gap gr may be out of date.
   */
  ghost predicate CacheAt(x: Caches, g: Ranges, L: seq<Node>, gl: int, gr: int, n: Node) {
    && n in x && n in g && 0 < g[n].sp < |L|
    && (g[n].sp != gl ==> x[n].lext == L[g[n].sp - 1])
    && (g[n].sp != gr ==> x[n].rext == L[g[n].sp])
  }

  /** Gaps lie strictly inside the leaf list, so 0 stands for "none out of date". */
  ghost predicate Cached(x: Caches, m: Links, g: Ranges, L: seq<Node>, gl: int, gr: int) {
    forall n {:trigger CacheAt(x, g, L, gl, gr, n)} :: n in m && n.internal ==> CacheAt(x, g, L, gl, gr, n)
  }

  lemma RotateCached(x: Caches, m: Links, h: Node, g: Ranges, L: seq<Node>, gl: int, gr: int, y: Node, l: bool)
    requires Cached(x, m, g, L, gl, gr)
    requires Fits(m, y, l) && Distinct(m, h, y, l) && y in g && m[y].Kid(l) in g
    ensures Cached(x, Rotate(m, y, l), RotateRanges(m, g, y, l), L, gl, gr)
  {
    var m', g' := Rotate(m, y, l), RotateRanges(m, g, y, l);
    forall n {:trigger CacheAt(x, g', L, gl, gr, n)} | n in m' && n.internal ensures CacheAt(x, g', L, gl, gr, n) {
      assert CacheAt(x, g, L, gl, gr, n);
    }
  }

  lemma SpliceCached(x: Caches, m: Links, h: Node, g: Ranges, L: seq<Node>, G: seq<Node>,
                     t: Node, q: Node, w: Node, qLeft: bool, lq: Link)
    requires Shape(m, h, g, L, G) && Spliceable(m, h, t, q, w) && t in g && 0 <= g[t].lo < |L|
    requires Cached(x, m, g, L, 0, 0)
    ensures var k := g[t].lo; var kq := if qLeft then k else k + 1;
            Cached(x[w := if qLeft then Ends(q, t) else Ends(t, q)], Splice(m, h, t, q, w, qLeft, lq),
                   SpliceRanges(g, k, t, q, w, qLeft), Inserted(L, kq, q),
                   if qLeft then 0 else k + 2, if qLeft then k else 0)
  {
    var k := g[t].lo;
    var m', g' := Splice(m, h, t, q, w, qLeft, lq), SpliceRanges(g, k, t, q, w, qLeft);
    var L' := Inserted(L, if qLeft then k else k + 1, q);
    var x' := x[w := if qLeft then Ends(q, t) else Ends(t, q)];
    var gl, gr := if qLeft then 0 else k + 2, if qLeft then k else 0;
    assert RangeAt(m, g, L, G, t);
    forall n {:trigger CacheAt(x', g', L', gl, gr, n)} | n in m' && n.internal ensures CacheAt(x', g', L', gl, gr, n) {
      if n != w {
        assert CacheAt(x, g, L, 0, 0, n);
      }
    }
  }

  lemma CutCached(x: Caches, m: Links, h: Node, g: Ranges, L: seq<Node>, G: seq<Node>, n: Node)
    requires Shape(m, h, g, L, G) && n in m && n != h && !n.internal && !m[n].root
    requires Cached(x, m, g, L, 0, 0)
    ensures Cuttable(m, h, n) && n in g && 0 <= g[n].lo < |L|
    ensures var k := g[n].lo;
            Cached(x, Cut(m, h, n), CutRanges(g, k), Removed(L, k), if m[n].left then 0 else k, if m[n].left then k else 0)
  {
    CutFits(m, h, g, L, G, n);
    var p, k := m[n].parent, g[n].lo;
    var m', g', L' := Cut(m, h, n), CutRanges(g, k), Removed(L, k);
    var gl, gr := if m[n].left then 0 else k, if m[n].left then k else 0;
    assert RangeAt(m, g, L, G, p) && RangeAt(m, g, L, G, m[p].Kid(!m[n].left));
    forall i {:trigger CacheAt(x, g', L', gl, gr, i)} | i in m' && i.internal ensures CacheAt(x, g', L', gl, gr, i) {
      assert CacheAt(x, g, L, 0, 0, i) && RangeAt(m, g, L, G, i);
    }
  }

  lemma SetRext(x: Caches, m: Links, h: Node, g: Ranges, L: seq<Node>, G: seq<Node>, gl: int, gr: int, n: Node)
    requires Ranged(m, h, g, L, G) && !h.internal && Cached(x, m, g, L, gl, gr) && n in m && n != h && n.internal
    ensures n in x && n in g && 0 < g[n].sp < |L|
    ensures Cached(x[n := x[n].(rext := L[g[n].sp])], m, g, L, gl, if g[n].sp == gr then 0 else gr)
  {
    assert CacheAt(x, g, L, gl, gr, n) && RangeAt(m, g, L, G, n);
    var x', gr' := x[n := x[n].(rext := L[g[n].sp])], if g[n].sp == gr then 0 else gr;
    forall i {:trigger CacheAt(x', g, L, gl, gr', i)} | i in m && i.internal ensures CacheAt(x', g, L, gl, gr', i) {
      assert CacheAt(x, g, L, gl, gr, i) && RangeAt(m, g, L, G, i);
    }
  }

  lemma SetLext(x: Caches, m: Links, h: Node, g: Ranges, L: seq<Node>, G: seq<Node>, gl: int, gr: int, n: Node)
    requires Ranged(m, h, g, L, G) && !h.internal && Cached(x, m, g, L, gl, gr) && n in m && n != h && n.internal
    ensures n in x && n in g && 0 < g[n].sp < |L|
    ensures Cached(x[n := x[n].(lext := L[g[n].sp - 1])], m, g, L, if g[n].sp == gl then 0 else gl, gr)
  {
    assert CacheAt(x, g, L, gl, gr, n) && RangeAt(m, g, L, G, n);
    var x', gl' := x[n := x[n].(lext := L[g[n].sp - 1])], if g[n].sp == gl then 0 else gl;
    forall i {:trigger CacheAt(x', g, L, gl', gr, i)} | i in m && i.internal ensures CacheAt(x', g, L, gl', gr, i) {
      assert CacheAt(x, g, L, gl, gr, i) && RangeAt(m, g, L, G, i);
    }
  }

  /** A gap at either end of the list has no node. */
  lemma EndGaps(x: Caches, m: Links, g: Ranges, L: seq<Node>, gl: int, gr: int)
    requires Cached(x, m, g, L, gl, gr)
    ensures Cached(x, m, g, L, if gl <= 0 || |L| <= gl then 0 else gl, if gr <= 0 || |L| <= gr then 0 else gr)
  {
    var l, r := if gl <= 0 || |L| <= gl then 0 else gl, if gr <= 0 || |L| <= gr then 0 else gr;
    forall n {:trigger CacheAt(x, g, L, l, r, n)} | n in m && n.internal ensures CacheAt(x, g, L, l, r, n) {
      assert CacheAt(x, g, L, gl, gr, n);
    }
  }
}
