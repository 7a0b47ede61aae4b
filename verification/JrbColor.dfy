/** Colours and black heights: every recolouring and recoloured rotation of insert and delete. */
module JrbColor {
  import opened JrbStore

  type Reds = map<Node, bool>
  type Heights = map<Node, int>

  /** Black height a parent sees: the node z is one short and is counted as if it were not. */
  ghost function Eff(bh: Heights, z: Node, k: Node): int
    requires k in bh
  {
    bh[k] + if k == z then 1 else 0
  }

  ghost predicate KidOk(c: Reds, bh: Heights, z: Node, r: Node, n: Node, k: Node)
    requires n in c && n in bh
  {
    && k in c && k in bh
    && Eff(bh, z, k) == bh[n] - (if c[n] then 0 else 1)
    && (c[n] && c[k] ==> k == r)
  }

  ghost predicate ColorAt(m: Links, c: Reds, bh: Heights, z: Node, r: Node, n: Node)
    requires n in m
  {
    && n in c && n in bh && 1 <= bh[n]
    && (if n.internal then
          KidOk(c, bh, z, r, n, m[n].Kid(true)) && KidOk(c, bh, z, r, n, m[n].Kid(false))
        else
          !c[n] && bh[n] == 1)
  }

  /**
    Equal black counts below both children everywhere, except that z is one short, and
    no red node has a red child, except r. The head stands for "no exception".
   */
  ghost predicate Colored(m: Links, h: Node, c: Reds, bh: Heights, z: Node, r: Node) {
    forall n {:trigger ColorAt(m, c, bh, z, r, n)} :: n in m && n != h ==> ColorAt(m, c, bh, z, r, n)
  }

  /** What a recoloured rotation of y and its child x leaves alone, outside x, y, d and e. */
  ghost predicate SameOutside(m: Links, h: Node, y: Node, l: bool, c: Reds, bh: Heights, z: Node, r: Node,
                              c': Reds, bh': Heights, z': Node, r': Node)
    requires Fits(m, y, l)
  {
    var x := m[y].Kid(l);
    && y in c && y in bh && x in c' && x in bh'
    && Eff(bh', z', x) == Eff(bh, z, y)
    && (c'[x] ==> c[y] && r != y)
    && (forall k :: k in c && k in bh && k != h && k != x && k != y && k != m[x].Kid(l) && k != m[y].Kid(!l) ==>
          && k in c' && k in bh' && c'[k] == c[k] && bh'[k] == bh[k]
          && Eff(bh', z', k) == Eff(bh, z, k) && (k == r ==> k == r'))
  }

  /** Away from x and y a rotation only replaces the child y of y's parent by x. */
  lemma KidAfter(m: Links, h: Node, y: Node, l: bool, n: Node, b: bool)
    requires Linked(m, h) && Fits(m, y, l) && Distinct(m, h, y, l)
    requires n in m && n.internal && n != y && n != m[y].Kid(l)
    ensures m[n].Kid(b) != h && m[n].Kid(b) != m[y].Kid(l) && m[n].Kid(b) != m[m[y].Kid(l)].Kid(l) && m[n].Kid(b) != m[y].Kid(!l)
    ensures Rotate(m, y, l)[n].Kid(b) == if m[n].Kid(b) == y then m[y].Kid(l) else m[n].Kid(b)
  {
    var x := m[y].Kid(l);
    assert EdgeAt(m, h, y, l) && EdgeAt(m, h, y, !l) && EdgeAt(m, h, x, l) && EdgeAt(m, h, x, !l);
    assert UpAt(m, h, y) && EdgeAt(m, h, n, b);
  }

  lemma OutsideAt(m: Links, h: Node, y: Node, l: bool, c: Reds, bh: Heights, z: Node, r: Node,
                  c': Reds, bh': Heights, z': Node, r': Node, n: Node)
    requires Linked(m, h) && Fits(m, y, l) && Distinct(m, h, y, l)
    requires SameOutside(m, h, y, l, c, bh, z, r, c', bh', z', r')
    requires n in m && n != h && n != y && n != m[y].Kid(l)
    requires ColorAt(m, c, bh, z, r, n)
    requires n in c' && n in bh' && (c'[n] ==> c[n]) && 1 <= bh'[n]
    requires bh'[n] - (if c'[n] then 0 else 1) == bh[n] - (if c[n] then 0 else 1)
    ensures ColorAt(Rotate(m, y, l), c', bh', z', r', n)
  {
    if n.internal {
      KidAfter(m, h, y, l, n, true);
      KidAfter(m, h, y, l, n, false);
    }
  }

  /** The two rotated nodes and their children afterwards. */
  lemma TopAfter(m: Links, h: Node, y: Node, l: bool)
    requires Linked(m, h) && Fits(m, y, l) && Distinct(m, h, y, l)
    ensures var x := m[y].Kid(l); var m' := Rotate(m, y, l);
            var c, d, e := m[x].Kid(!l), m[x].Kid(l), m[y].Kid(!l);
            && m'[x].Kid(!l) == y && m'[x].Kid(l) == d && m'[y].Kid(l) == c && m'[y].Kid(!l) == e
            && d in m && e in m && d != h && e != h && d != x && d != y && d != c && d != e && e != x && e != y && e != c
  {
    var x := m[y].Kid(l);
    assert EdgeAt(m, h, y, l) && EdgeAt(m, h, y, !l) && EdgeAt(m, h, x, l) && EdgeAt(m, h, x, !l);
  }

  /** Nodes y, its child x on side l, and the outer child of y, with their colours. */
  ghost predicate Known(m: Links, h: Node, c: Reds, bh: Heights, y: Node, l: bool) {
    && Linked(m, h) && Fits(m, y, l) && Distinct(m, h, y, l)
    && y in c && y in bh && m[y].Kid(l) in c && m[y].Kid(l) in bh && m[y].Kid(!l) in c && m[y].Kid(!l) in bh
    && m[m[y].Kid(l)].Kid(l) in c && m[m[y].Kid(l)].Kid(l) in bh
    && m[m[y].Kid(l)].Kid(!l) in c && m[m[y].Kid(l)].Kid(!l) in bh
  }

  lemma KnownHolds(m: Links, h: Node, c: Reds, bh: Heights, z: Node, r: Node, y: Node, l: bool)
    requires Linked(m, h) && Fits(m, y, l) && Distinct(m, h, y, l) && Colored(m, h, c, bh, z, r)
    ensures Known(m, h, c, bh, y, l)
  {
    assert ColorAt(m, c, bh, z, r, y) && ColorAt(m, c, bh, z, r, m[y].Kid(l));
  }

  /** Rotate a red child above its black parent and exchange their colours. */
  lemma SwapColored(m: Links, h: Node, c: Reds, bh: Heights, y: Node, l: bool, z: Node, r: Node)
    requires Known(m, h, c, bh, y, l) && Colored(m, h, c, bh, z, r)
    requires !c[y] && c[m[y].Kid(l)] && !c[m[y].Kid(!l)]
    requires z != y && z != m[y].Kid(l)
    requires r == h || r == m[m[y].Kid(l)].Kid(l)
    ensures Colored(Rotate(m, y, l), h, c[m[y].Kid(l) := false][y := true],
                    bh[m[y].Kid(l) := bh[y]][y := bh[y] - 1], z, h)
  {
    var x := m[y].Kid(l);
    var m' := Rotate(m, y, l);
    var c', bh' := c[x := false][y := true], bh[x := bh[y]][y := bh[y] - 1];
    TopAfter(m, h, y, l);
    assert ColorAt(m, c, bh, z, r, y) && ColorAt(m, c, bh, z, r, x);
    assert KidOk(c', bh', z, h, x, m'[x].Kid(l)) && KidOk(c', bh', z, h, x, m'[x].Kid(!l));
    assert KidOk(c', bh', z, h, y, m'[y].Kid(l)) && KidOk(c', bh', z, h, y, m'[y].Kid(!l));
    forall n {:trigger ColorAt(m', c', bh', z, h, n)} | n in m' && n != h ensures ColorAt(m', c', bh', z, h, n) {
      if n != x && n != y {
        assert ColorAt(m, c, bh, z, r, n);
        OutsideAt(m, h, y, l, c, bh, z, r, c', bh', z, h, n);
      }
    }
  }

  /** Rotate a red child above its red parent: the inner red-red pair becomes an outer one. */
  lemma RedColored(m: Links, h: Node, c: Reds, bh: Heights, y: Node, l: bool)
    requires Known(m, h, c, bh, y, l) && Colored(m, h, c, bh, h, m[y].Kid(l))
    requires c[y] && c[m[y].Kid(l)]
    ensures Colored(Rotate(m, y, l), h, c, bh, h, y)
  {
    var x := m[y].Kid(l);
    var m' := Rotate(m, y, l);
    TopAfter(m, h, y, l);
    assert ColorAt(m, c, bh, h, x, y) && ColorAt(m, c, bh, h, x, x);
    assert KidOk(c, bh, h, y, x, m'[x].Kid(l)) && KidOk(c, bh, h, y, x, m'[x].Kid(!l));
    assert KidOk(c, bh, h, y, y, m'[y].Kid(l)) && KidOk(c, bh, h, y, y, m'[y].Kid(!l));
    forall n {:trigger ColorAt(m', c, bh, h, y, n)} | n in m' && n != h ensures ColorAt(m', c, bh, h, y, n) {
      if n != x && n != y {
        assert ColorAt(m, c, bh, h, x, n);
        OutsideAt(m, h, y, l, c, bh, h, x, c, bh, h, y, n);
      }
    }
  }

  /** Deletion, far nephew d red: the sibling x takes y's place and colour; nothing is short. */
  lemma FarColored(m: Links, h: Node, c: Reds, bh: Heights, y: Node, l: bool)
    requires Known(m, h, c, bh, y, l) && Colored(m, h, c, bh, m[y].Kid(!l), h)
    requires !c[m[y].Kid(l)] && c[m[m[y].Kid(l)].Kid(l)]
    ensures var x := m[y].Kid(l); var d := m[x].Kid(l);
            Colored(Rotate(m, y, l), h, c[d := false][x := c[y]][y := false],
                    bh[d := bh[x]][y := bh[x]][x := bh[y]], h, h)
  {
    var x := m[y].Kid(l);
    var d, e := m[x].Kid(l), m[y].Kid(!l);
    var m' := Rotate(m, y, l);
    var c', bh' := c[d := false][x := c[y]][y := false], bh[d := bh[x]][y := bh[x]][x := bh[y]];
    FarTop(m, h, c, bh, y, l, x, d, c', bh');
    FarOutside(m, h, c, bh, y, l, x, d, c', bh');
    forall n {:trigger ColorAt(m', c', bh', h, h, n)} | n in m' && n != h ensures ColorAt(m', c', bh', h, h, n) {
      if n != x && n != y {
        FarAt(m, h, c, bh, y, l, x, d, c', bh', n);
      }
    }
  }

  /** The new colours and heights of that case. */
  ghost predicate Far(m: Links, h: Node, c: Reds, bh: Heights, y: Node, l: bool, x: Node, d: Node, c': Reds, bh': Heights) {
    && Known(m, h, c, bh, y, l) && Colored(m, h, c, bh, m[y].Kid(!l), h)
    && x == m[y].Kid(l) && d == m[x].Kid(l) && !c[x] && c[d]
    && c' == c[d := false][x := c[y]][y := false] && bh' == bh[d := bh[x]][y := bh[x]][x := bh[y]]
  }

  lemma FarTop(m: Links, h: Node, c: Reds, bh: Heights, y: Node, l: bool, x: Node, d: Node, c': Reds, bh': Heights)
    requires Far(m, h, c, bh, y, l, x, d, c', bh')
    ensures ColorAt(Rotate(m, y, l), c', bh', h, h, x) && ColorAt(Rotate(m, y, l), c', bh', h, h, y)
  {
    var m', e := Rotate(m, y, l), m[y].Kid(!l);
    TopAfter(m, h, y, l);
    assert ColorAt(m, c, bh, e, h, y) && ColorAt(m, c, bh, e, h, x) && ColorAt(m, c, bh, e, h, d);
    assert KidOk(c', bh', h, h, x, m'[x].Kid(l)) && KidOk(c', bh', h, h, x, m'[x].Kid(!l));
    assert KidOk(c', bh', h, h, y, m'[y].Kid(l)) && KidOk(c', bh', h, h, y, m'[y].Kid(!l));
  }

  lemma FarOutside(m: Links, h: Node, c: Reds, bh: Heights, y: Node, l: bool, x: Node, d: Node, c': Reds, bh': Heights)
    requires Far(m, h, c, bh, y, l, x, d, c', bh')
    ensures SameOutside(m, h, y, l, c, bh, m[y].Kid(!l), h, c', bh', h, h)
  {
    TopAfter(m, h, y, l);
    assert ColorAt(m, c, bh, m[y].Kid(!l), h, y) && ColorAt(m, c, bh, m[y].Kid(!l), h, x);
  }

  lemma FarAt(m: Links, h: Node, c: Reds, bh: Heights, y: Node, l: bool, x: Node, d: Node, c': Reds, bh': Heights, n: Node)
    requires Far(m, h, c, bh, y, l, x, d, c', bh') && n in m && n != h && n != x && n != y
    requires SameOutside(m, h, y, l, c, bh, m[y].Kid(!l), h, c', bh', h, h)
    ensures ColorAt(Rotate(m, y, l), c', bh', h, h, n)
  {
    var e := m[y].Kid(!l);
    TopAfter(m, h, y, l);
    assert ColorAt(m, c, bh, e, h, n) && ColorAt(m, c, bh, e, h, x) && ColorAt(m, c, bh, e, h, d);
    OutsideAt(m, h, y, l, c, bh, e, h, c', bh', h, h, n);
  }

  /** Deletion, black sibling x under a red parent y: x rises and keeps its colour. */
  lemma KeepColored(m: Links, h: Node, c: Reds, bh: Heights, y: Node, l: bool)
    requires Known(m, h, c, bh, y, l) && Colored(m, h, c, bh, m[y].Kid(!l), h)
    requires c[y] && !c[m[y].Kid(l)] && !c[m[m[y].Kid(l)].Kid(!l)]
    ensures Colored(Rotate(m, y, l), h, c, bh[y := bh[y] - 1], h, h)
  {
    var x := m[y].Kid(l);
    var e := m[y].Kid(!l);
    var m' := Rotate(m, y, l);
    var bh' := bh[y := bh[y] - 1];
    TopAfter(m, h, y, l);
    assert ColorAt(m, c, bh, e, h, y) && ColorAt(m, c, bh, e, h, x) && ColorAt(m, c, bh, e, h, e);
    assert KidOk(c, bh', h, h, x, m'[x].Kid(l)) && KidOk(c, bh', h, h, x, m'[x].Kid(!l));
    assert KidOk(c, bh', h, h, y, m'[y].Kid(l)) && KidOk(c, bh', h, h, y, m'[y].Kid(!l));
    forall n {:trigger ColorAt(m', c, bh', h, h, n)} | n in m' && n != h ensures ColorAt(m', c, bh', h, h, n) {
      if n != x && n != y {
        assert ColorAt(m, c, bh, e, h, n);
        OutsideAt(m, h, y, l, c, bh, e, h, c, bh', h, h, n);
      }
    }
  }

  /** Insertion, red uncle: blacken parent and uncle, redden the grandparent. */
  lemma UncleColored(m: Links, h: Node, c: Reds, bh: Heights, g: Node, l: bool, r: Node)
    requires Linked(m, h) && Colored(m, h, c, bh, h, r)
    requires g in m && g != h && g.internal
    requires m[g].Kid(l) in c && m[g].Kid(!l) in c && m[g].Kid(l) in bh && m[g].Kid(!l) in bh && g in c
    requires c[m[g].Kid(l)] && c[m[g].Kid(!l)] && r != m[g].Kid(l) && r != m[g].Kid(!l) && r != g
    requires r in m ==> m[r].parent == m[g].Kid(l)
    ensures var p, s := m[g].Kid(l), m[g].Kid(!l);
            Colored(m, h, c[p := false][g := true][s := false], bh[p := bh[p] + 1][s := bh[s] + 1], h, g)
  {
    var p, s := m[g].Kid(l), m[g].Kid(!l);
    var c', bh' := c[p := false][g := true][s := false], bh[p := bh[p] + 1][s := bh[s] + 1];
    assert EdgeAt(m, h, g, l) && EdgeAt(m, h, g, !l);
    assert ColorAt(m, c, bh, h, r, g);
    forall n {:trigger ColorAt(m, c', bh', h, g, n)} | n in m && n != h ensures ColorAt(m, c', bh', h, g, n) {
      assert ColorAt(m, c, bh, h, r, n);
      if n.internal {
        assert EdgeAt(m, h, n, true) && EdgeAt(m, h, n, false);
      }
    }
  }

  /** Deletion: reddening a black sibling with black children moves the shortage up. */
  lemma ShortUp(m: Links, h: Node, c: Reds, bh: Heights, p: Node, l: bool)
    requires Linked(m, h) && p in m && p != h && p.internal && Colored(m, h, c, bh, m[p].Kid(l), h)
    requires p in c && p in bh && m[p].Kid(!l) in c && m[p].Kid(!l) in bh && m[p].Kid(!l).internal && m[p].Kid(!l) in m
    requires !c[p] && !c[m[p].Kid(!l)]
    requires m[m[p].Kid(!l)].flink in c && !c[m[m[p].Kid(!l)].flink]
    requires m[m[p].Kid(!l)].blink in c && !c[m[m[p].Kid(!l)].blink]
    ensures var s := m[p].Kid(!l); Colored(m, h, c[s := true], bh[s := bh[s] - 1][p := bh[p] - 1], p, h)
  {
    var s, e := m[p].Kid(!l), m[p].Kid(l);
    var c', bh' := c[s := true], bh[s := bh[s] - 1][p := bh[p] - 1];
    assert EdgeAt(m, h, p, l) && EdgeAt(m, h, p, !l);
    assert EdgeAt(m, h, s, true) && EdgeAt(m, h, s, false);
    assert ColorAt(m, c, bh, e, h, p) && ColorAt(m, c, bh, e, h, s) && ColorAt(m, c, bh, e, h, e);
    assert ColorAt(m, c, bh, e, h, m[s].Kid(true));
    forall n {:trigger ColorAt(m, c', bh', p, h, n)} | n in m && n != h ensures ColorAt(m, c', bh', p, h, n) {
      assert ColorAt(m, c, bh, e, h, n);
      if n.internal {
        assert EdgeAt(m, h, n, true) && EdgeAt(m, h, n, false);
      }
    }
  }

  /** Deletion: exchanging the colours of a red parent and a black sibling ends the shortage. */
  lemma ShortEnds(m: Links, h: Node, c: Reds, bh: Heights, p: Node, l: bool)
    requires Linked(m, h) && p in m && p != h && p.internal && Colored(m, h, c, bh, m[p].Kid(l), h)
    requires p in c && p in bh && m[p].Kid(!l) in c && m[p].Kid(!l) in bh && m[p].Kid(!l).internal && m[p].Kid(!l) in m
    requires c[p] && !c[m[p].Kid(!l)]
    requires m[m[p].Kid(!l)].flink in c && !c[m[m[p].Kid(!l)].flink]
    requires m[m[p].Kid(!l)].blink in c && !c[m[m[p].Kid(!l)].blink]
    ensures var s := m[p].Kid(!l); Colored(m, h, c[p := false][s := true], bh[s := bh[s] - 1], h, h)
  {
    var s, e := m[p].Kid(!l), m[p].Kid(l);
    var c', bh' := c[p := false][s := true], bh[s := bh[s] - 1];
    assert EdgeAt(m, h, p, l) && EdgeAt(m, h, p, !l);
    assert EdgeAt(m, h, s, true) && EdgeAt(m, h, s, false);
    assert ColorAt(m, c, bh, e, h, p) && ColorAt(m, c, bh, e, h, s) && ColorAt(m, c, bh, e, h, e);
    assert ColorAt(m, c, bh, e, h, m[s].Kid(true));
    forall n {:trigger ColorAt(m, c', bh', h, h, n)} | n in m && n != h ensures ColorAt(m, c', bh', h, h, n) {
      assert ColorAt(m, c, bh, e, h, n);
      if n.internal {
        assert EdgeAt(m, h, n, true) && EdgeAt(m, h, n, false);
      }
    }
  }

  /** A shortage or a red-red exception at the root, or a red node under a black parent, is none. */
  lemma NoException(m: Links, h: Node, c: Reds, bh: Heights, z: Node, r: Node)
    requires Linked(m, h) && Colored(m, h, c, bh, z, r)
    requires z == h || (z in m && m[z].root)
    requires r == h || (r in m && (m[r].root || (m[r].parent in c && !c[m[r].parent])))
    ensures Colored(m, h, c, bh, h, h)
  {
    forall n {:trigger ColorAt(m, c, bh, h, h, n)} | n in m && n != h ensures ColorAt(m, c, bh, h, h, n) {
      assert ColorAt(m, c, bh, z, r, n);
      if n.internal {
        assert EdgeAt(m, h, n, true) && EdgeAt(m, h, n, false);
      }
    }
  }

  /** Blackening a red root is always allowed, whatever red child it has. */
  lemma BlackRoot(m: Links, h: Node, c: Reds, bh: Heights, r: Node, t: Node)
    requires Linked(m, h) && Colored(m, h, c, bh, h, r)
    requires t in m && t != h && m[t].root && t in c && t in bh && c[t]
    requires r == h || r == t || (r in m && m[r].parent == t)
    ensures Colored(m, h, c[t := false], bh[t := bh[t] + 1], h, h)
  {
    var c', bh' := c[t := false], bh[t := bh[t] + 1];
    forall n {:trigger ColorAt(m, c', bh', h, h, n)} | n in m && n != h ensures ColorAt(m, c', bh', h, h, n) {
      assert ColorAt(m, c, bh, h, r, n);
      if n.internal {
        assert EdgeAt(m, h, n, true) && EdgeAt(m, h, n, false);
      }
    }
  }

  /** A black node is no red-red exception. */
  lemma BlackNoException(m: Links, h: Node, c: Reds, bh: Heights, z: Node, r: Node)
    requires Colored(m, h, c, bh, z, r) && r in c && !c[r]
    ensures Colored(m, h, c, bh, z, h)
  {
    forall n {:trigger ColorAt(m, c, bh, z, h, n)} | n in m && n != h ensures ColorAt(m, c, bh, z, h, n) {
      assert ColorAt(m, c, bh, z, r, n);
    }
  }

}
