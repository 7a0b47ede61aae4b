/**
  The node memory of the threaded external-leaf red-black tree: node objects, a
  snapshot of their pointer fields as a value, and what one rotation does to it.
*/
module JrbStore {

  class Node {
    const internal: bool
    const key: int
    const val: int
    var red: bool
    var left: bool
    var root: bool
    var flink: Node
    var blink: Node
    var parent: Node
    var lext: Node
    var rext: Node

    constructor (internal: bool, key: int, val: int)
      ensures this.internal == internal && this.key == key && this.val == val
      ensures red == internal && !left && !root
      ensures flink == this && blink == this && parent == this
    {
      this.internal, this.key, this.val := internal, key, val;
      red, left, root := internal, false, false;
      flink, blink, parent, lext, rext := this, this, this, this, this;
    }
  }

  /** The pointer fields of one node; for an internal node flink/blink are its two children. */
  datatype Link = Link(left: bool, root: bool, flink: Node, blink: Node, parent: Node) {
    function Kid(l: bool): Node {
      if l then flink else blink
    }

    function SetKid(l: bool, v: Node): Link {
      if l then this.(flink := v) else this.(blink := v)
    }
  }

  type Links = map<Node, Link>

  /** Leaves lo..hi lie below the node; sp is the gap between the leaves of its two subtrees. */
  datatype Rng = Rng(lo: int, sp: int, hi: int)

  type Ranges = map<Node, Rng>

  /* ---------- pointer structure ---------- */

  ghost predicate EdgeAt(m: Links, h: Node, n: Node, l: bool)
    requires n in m
  {
    var k := m[n].Kid(l);
    k in m && k != h && m[k].parent == n && m[k].left == l && !m[k].root
  }

  ghost predicate UpAt(m: Links, h: Node, n: Node)
    requires n in m && h in m
  {
    if m[n].root then
      m[h].parent == n && m[n].parent == h
    else
      && m[h].parent != n
      && m[n].parent in m && m[n].parent != h && m[n].parent.internal
      && m[m[n].parent].Kid(m[n].left) == n
  }

  ghost predicate Linked(m: Links, h: Node) {
    && h in m && !h.internal && m[h].parent in m
    && (m[h].parent != h ==> m[m[h].parent].root)
    && (forall n {:trigger UpAt(m, h, n)} :: n in m && n != h ==> UpAt(m, h, n))
    && (forall n, l {:trigger EdgeAt(m, h, n, l)} :: n in m && n.internal ==> EdgeAt(m, h, n, l))
  }

  /* ---------- leaf ranges ---------- */

  ghost predicate RangeAt(m: Links, g: Ranges, L: seq<Node>, G: seq<Node>, n: Node)
    requires n in m
  {
    && n in g
    && 0 <= g[n].lo < g[n].hi <= |L|
    && (m[n].root ==> g[n].lo == 0 && g[n].hi == |L|)
    && (if n.internal then
          && m[n].flink in g && m[n].blink in g
          && g[m[n].flink].lo == g[n].lo && g[m[n].flink].hi == g[n].sp
          && g[m[n].blink].lo == g[n].sp && g[m[n].blink].hi == g[n].hi
          && 0 <= g[n].sp < |G| && G[g[n].sp] == n
        else
          g[n].hi == g[n].lo + 1 && L[g[n].lo] == n)
  }

  ghost predicate LeafAt(m: Links, h: Node, g: Ranges, L: seq<Node>, i: int)
    requires 0 <= i < |L|
  {
    L[i] in m && L[i] != h && !L[i].internal && L[i] in g && g[L[i]].lo == i
  }

  /** The leaves read left to right below the root are exactly L. */
  ghost predicate Ranged(m: Links, h: Node, g: Ranges, L: seq<Node>, G: seq<Node>) {
    && |G| == |L|
    && h in m && (m[h].parent == h <==> L == [])
    && (L == [] ==> m.Keys == {h})
    && (forall n {:trigger RangeAt(m, g, L, G, n)} :: n in m && n != h ==> RangeAt(m, g, L, G, n))
    && (forall i {:trigger LeafAt(m, h, g, L, i)} :: 0 <= i < |L| ==> LeafAt(m, h, g, L, i))
  }

  ghost predicate Shape(m: Links, h: Node, g: Ranges, L: seq<Node>, G: seq<Node>) {
    Linked(m, h) && Ranged(m, h, g, L, G)
  }

  /* ---------- rotation ---------- */

  ghost predicate Fits(m: Links, y: Node, l: bool) {
    && y in m && y.internal && m[y].parent in m
    && m[y].Kid(l) in m && m[y].Kid(l).internal
    && m[m[y].Kid(l)].Kid(!l) in m
  }

  ghost predicate Distinct(m: Links, h: Node, y: Node, l: bool)
    requires Fits(m, y, l)
  {
    var x := m[y].Kid(l);
    var c := m[x].Kid(!l);
    var p := m[y].parent;
    && x != h && c != h && y != h && x != y && c != y && c != x && p != x && p != y && p != c
    && m[x].Kid(l) != p && m[y].Kid(!l) != p
  }

  ghost function Rotate(m: Links, y: Node, l: bool): Links
    requires Fits(m, y, l)
  {
    var x := m[y].Kid(l);
    var c := m[x].Kid(!l);
    var p := m[y].parent;
    m[p := if m[y].root then m[p].(parent := x) else m[p].SetKid(m[y].left, x)]
     [c := m[c].(left := l, parent := y)]
     [x := m[x].SetKid(!l, y).(parent := p, root := m[y].root, left := if m[y].root then m[x].left else m[y].left)]
     [y := m[y].SetKid(l, c).(parent := x, root := false, left := !l)]
  }

  /** The pointer writes of a rotation one by one: x's inner subtree moves below y, y below x. */
  ghost function LowerSteps(m: Links, y: Node, l: bool): Links
    requires Fits(m, y, l)
  {
    var x := m[y].Kid(l);
    var c := m[x].Kid(!l);
    var m1 := m[y := m[y].SetKid(l, c)];
    var m2 := m1[c := m1[c].(left := l)];
    var m3 := m2[c := m2[c].(parent := y)];
    var m4 := m3[x := m3[x].SetKid(!l, y)];
    m4[y := m4[y].(left := !l)]
  }

  /** Then x takes y's place below p. */
  ghost function UpperSteps(m: Links, y: Node, x: Node, p: Node, root: bool, left: bool): Links
    requires y in m && x in m && p in m
  {
    var m6 := m[x := m[x].(parent := p)];
    var m7 := m6[y := m6[y].(parent := x)];
    if root then
      var m8 := m7[p := m7[p].(parent := x)];
      var m9 := m8[y := m8[y].(root := false)];
      m9[x := m9[x].(root := true)]
    else
      var m8 := m7[p := m7[p].SetKid(left, x)];
      m8[x := m8[x].(left := left)]
  }

  ghost function RotateSteps(m: Links, y: Node, l: bool): Links
    requires Fits(m, y, l)
  {
    UpperSteps(LowerSteps(m, y, l), y, m[y].Kid(l), m[y].parent, m[y].root, m[y].left)
  }

  lemma RotateStepsAt(m: Links, h: Node, y: Node, l: bool, n: Node)
    requires Linked(m, h) && Fits(m, y, l) && Distinct(m, h, y, l) && n in m
    ensures n in RotateSteps(m, y, l) && n in Rotate(m, y, l) && RotateSteps(m, y, l)[n] == Rotate(m, y, l)[n]
  {
    assert EdgeAt(m, h, y, l) && UpAt(m, h, y);
  }

  lemma RotateStepsAre(m: Links, h: Node, y: Node, l: bool)
    requires Linked(m, h) && Fits(m, y, l) && Distinct(m, h, y, l)
    ensures RotateSteps(m, y, l) == Rotate(m, y, l)
  {
    var a, b := RotateSteps(m, y, l), Rotate(m, y, l);
    RotateKeys(m, h, y, l, a, b);
    forall n {:trigger a[n]} | n in m ensures a[n] == b[n] {
      RotateStepsAt(m, h, y, l, n);
    }
    SameLinks(a, b);
  }

  lemma RotateKeys(m: Links, h: Node, y: Node, l: bool, a: Links, b: Links)
    requires Linked(m, h) && Fits(m, y, l) && a == RotateSteps(m, y, l) && b == Rotate(m, y, l)
    ensures a.Keys == m.Keys == b.Keys
  {
    assert EdgeAt(m, h, y, l) && UpAt(m, h, y);
  }

  lemma SameLinks(a: Links, b: Links)
    requires a.Keys == b.Keys && forall n {:trigger a[n]} :: n in a ==> a[n] == b[n]
    ensures a == b
  {
  }

  ghost function RotateRanges(m: Links, g: Ranges, y: Node, l: bool): Ranges
    requires Fits(m, y, l) && y in g && m[y].Kid(l) in g
  {
    var x := m[y].Kid(l);
    var gy := g[y];
    var gx := g[x];
    g[x := Rng(gy.lo, gx.sp, gy.hi)]
     [y := if l then Rng(gx.sp, gy.sp, gy.hi) else Rng(gy.lo, gy.sp, gx.sp)]
  }

  ghost function Span(g: Ranges, n: Node): int
    requires n in g
  {
    g[n].hi - g[n].lo
  }

  lemma SpanLess(m: Links, h: Node, g: Ranges, L: seq<Node>, G: seq<Node>, n: Node, b: bool)
    requires Shape(m, h, g, L, G)
    requires n in m && n != h && n.internal
    ensures m[n].Kid(b) in m && m[n].Kid(b) != h && m[n].Kid(b) in g && n in g
    ensures 0 < Span(g, m[n].Kid(b)) < Span(g, n)
  {
    assert EdgeAt(m, h, n, b) && EdgeAt(m, h, n, !b);
    assert RangeAt(m, g, L, G, n) && RangeAt(m, g, L, G, m[n].Kid(b)) && RangeAt(m, g, L, G, m[n].Kid(!b));
  }

  /** A node other than the root: its parent, and how their ranges compare. */
  lemma ParentOf(m: Links, h: Node, g: Ranges, L: seq<Node>, G: seq<Node>, n: Node)
    requires Shape(m, h, g, L, G) && n in m && n != h && !m[n].root
    ensures m[n].parent in m && m[n].parent != h && m[n].parent != n && m[n].parent.internal
    ensures m[m[n].parent].Kid(m[n].left) == n
    ensures n in g && m[n].parent in g && Span(g, n) < Span(g, m[n].parent) <= |L|
    ensures m[n].left ==> g[m[n].parent].lo == g[n].lo && g[m[n].parent].sp == g[n].hi
    ensures !m[n].left ==> g[m[n].parent].hi == g[n].hi && g[m[n].parent].sp == g[n].lo
  {
    assert UpAt(m, h, n);
    SpanLess(m, h, g, L, G, m[n].parent, m[n].left);
    assert RangeAt(m, g, L, G, m[n].parent);
  }

  lemma RotateFits(m: Links, h: Node, g: Ranges, L: seq<Node>, G: seq<Node>, y: Node, l: bool)
    requires Shape(m, h, g, L, G)
    requires y in m && y.internal && m[y].Kid(l).internal
    ensures Fits(m, y, l) && Distinct(m, h, y, l) && y in g && m[y].Kid(l) in g
  {
    var x := m[y].Kid(l);
    SpanLess(m, h, g, L, G, y, l);
    SpanLess(m, h, g, L, G, y, !l);
    SpanLess(m, h, g, L, G, x, l);
    SpanLess(m, h, g, L, G, x, !l);
    assert UpAt(m, h, y);
    if m[y].parent != h {
      SpanLess(m, h, g, L, G, m[y].parent, m[y].left);
    }
  }

  lemma RotateEdge(m: Links, h: Node, y: Node, l: bool, n: Node, b: bool)
    requires Linked(m, h) && Fits(m, y, l) && Distinct(m, h, y, l)
    requires n in m && n.internal
    ensures EdgeAt(Rotate(m, y, l), h, n, b)
  {
    assert EdgeAt(m, h, n, b);
    assert EdgeAt(m, h, y, l) && EdgeAt(m, h, y, !l);
    assert EdgeAt(m, h, m[y].Kid(l), !l) && EdgeAt(m, h, m[y].Kid(l), l);
    assert UpAt(m, h, y);
  }

  lemma RotateUp(m: Links, h: Node, y: Node, l: bool, n: Node)
    requires Linked(m, h) && Fits(m, y, l) && Distinct(m, h, y, l)
    requires n in m && n != h
    ensures UpAt(Rotate(m, y, l), h, n)
  {
    assert UpAt(m, h, n);
    assert EdgeAt(m, h, y, l);
    assert EdgeAt(m, h, m[y].Kid(l), !l);
    assert UpAt(m, h, y);
  }

  lemma RotateLinked(m: Links, h: Node, y: Node, l: bool)
    requires Linked(m, h) && Fits(m, y, l) && Distinct(m, h, y, l)
    ensures Linked(Rotate(m, y, l), h)
  {
    var m' := Rotate(m, y, l);
    assert UpAt(m, h, y) && EdgeAt(m, h, y, l);
    assert m[h].parent != h ==> m'[m'[h].parent].root;
    forall n {:trigger UpAt(m', h, n)} | n in m' && n != h ensures UpAt(m', h, n) {
      RotateUp(m, h, y, l, n);
    }
    forall n, b {:trigger EdgeAt(m', h, n, b)} | n in m' && n.internal ensures EdgeAt(m', h, n, b) {
      RotateEdge(m, h, y, l, n, b);
    }
  }

  /** A rotation moves the root only when the root itself is rotated down. */
  lemma RotateRoot(m: Links, h: Node, y: Node, l: bool)
    requires Linked(m, h) && Fits(m, y, l) && Distinct(m, h, y, l)
    ensures Rotate(m, y, l)[h].parent == if m[h].parent == y then m[y].Kid(l) else m[h].parent
  {
    assert UpAt(m, h, y) && EdgeAt(m, h, y, l);
  }

  lemma KidNotRoot(m: Links, h: Node, n: Node, b: bool)
    requires Linked(m, h) && n in m && n.internal
    ensures m[n].Kid(b) != m[h].parent
  {
    assert EdgeAt(m, h, n, b);
  }

  lemma RotateRangeTop(m: Links, h: Node, g: Ranges, L: seq<Node>, G: seq<Node>, y: Node, l: bool)
    requires Shape(m, h, g, L, G)
    requires Fits(m, y, l) && Distinct(m, h, y, l) && y in g && m[y].Kid(l) in g
    ensures RangeAt(Rotate(m, y, l), RotateRanges(m, g, y, l), L, G, y)
    ensures RangeAt(Rotate(m, y, l), RotateRanges(m, g, y, l), L, G, m[y].Kid(l))
  {
    var x := m[y].Kid(l);
    assert EdgeAt(m, h, y, l) && EdgeAt(m, h, y, !l);
    assert EdgeAt(m, h, x, l) && EdgeAt(m, h, x, !l);
    assert RangeAt(m, g, L, G, y) && RangeAt(m, g, L, G, x);
    assert RangeAt(m, g, L, G, m[y].Kid(!l));
    assert RangeAt(m, g, L, G, m[x].Kid(l)) && RangeAt(m, g, L, G, m[x].Kid(!l));
  }

  lemma RotateRangeAt(m: Links, h: Node, g: Ranges, L: seq<Node>, G: seq<Node>, y: Node, l: bool, n: Node)
    requires Shape(m, h, g, L, G)
    requires Fits(m, y, l) && Distinct(m, h, y, l) && y in g && m[y].Kid(l) in g
    requires n in m && n != h && n != y && n != m[y].Kid(l)
    ensures RangeAt(Rotate(m, y, l), RotateRanges(m, g, y, l), L, G, n)
  {
    var x := m[y].Kid(l);
    assert RangeAt(m, g, L, G, n) && RangeAt(m, g, L, G, y);
    assert EdgeAt(m, h, x, !l) && EdgeAt(m, h, y, l);
    assert UpAt(m, h, y);
    if n.internal {
      assert EdgeAt(m, h, n, true) && EdgeAt(m, h, n, false);
    }
  }

  lemma RotateShape(m: Links, h: Node, g: Ranges, L: seq<Node>, G: seq<Node>, y: Node, l: bool)
    requires Shape(m, h, g, L, G)
    requires Fits(m, y, l) && Distinct(m, h, y, l) && y in g && m[y].Kid(l) in g
    ensures Shape(Rotate(m, y, l), h, RotateRanges(m, g, y, l), L, G)
  {
    RotateLinked(m, h, y, l);
    var m', g' := Rotate(m, y, l), RotateRanges(m, g, y, l);
    forall n {:trigger RangeAt(m', g', L, G, n)} | n in m' && n != h ensures RangeAt(m', g', L, G, n) {
      if n == y || n == m[y].Kid(l) {
        RotateRangeTop(m, h, g, L, G, y, l);
      } else {
        RotateRangeAt(m, h, g, L, G, y, l, n);
      }
    }
    assert UpAt(m, h, y);
    forall i {:trigger LeafAt(m', h, g', L, i)} | 0 <= i < |L| ensures LeafAt(m', h, g', L, i) {
      assert LeafAt(m, h, g, L, i);
    }
  }
}
