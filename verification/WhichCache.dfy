/** Sorting the facilities while the hierarchy keeps referring to the same symbols. */
module WhichCache {
  import S = Splay
  import opened SigCmp
  import opened Heapsort

  /** A splay tree kept in a global variable. */
  class Cache {
    var root: S.Node?
    ghost var shape: S.Tree
    ghost var nodes: set<S.Node>

    constructor ()
      ensures Valid() && Map() == map[] && nodes == {}
    {
      root, shape, nodes := null, S.Leaf, {};
    }

    ghost predicate Valid()
      reads this, nodes
    {
      S.Nodes(shape) == nodes && S.Repr(root, shape) && S.Proper(shape) && S.Sorted(S.InOrder(shape))
    }

    ghost function Map(): map<int, S.Payload>
      reads this
    {
      S.Entries(S.InOrder(shape))
    }

    method Add(i: int, val: int, sym: int)
      requires Valid()
      modifies this, nodes
      ensures Valid() && fresh(nodes - old(nodes))
      ensures Map() == if i in old(Map()) then old(Map()) else old(Map())[i := S.Payload(val, sym)]
    {
      root, shape := S.Insert(i, root, val, sym, shape, nodes);
      nodes := S.Nodes(shape);
    }

    /** Brings the key to the root, where its payload is read. */
    method Find(i: int) returns (n: S.Node)
      requires Valid() && i in Map()
      modifies this, nodes
      ensures Valid() && nodes == old(nodes) && Map() == old(Map())
      ensures root == n && n.item == i && Map()[i] == S.Payload(n.valOld, n.sym)
    {
      S.EntriesAt(S.InOrder(shape), i);
      assert shape.Tree?;
      root, shape := S.Splay(i, root, shape, nodes);
      S.RootHasKey(shape, i);
      n := root;
      assert n in S.InOrder(shape) by { assert S.InOrder(shape)[|S.InOrder(shape.left)|] == n; }
      S.EntriesAt(S.InOrder(shape), i);
    }
  }

  /** A node of the hierarchy; addr stands for its address. */
  class HNode {
    const addr: int
    const next: HNode?
    const child: HNode?
    var tWhich: int

    constructor (addr: int, next: HNode?, child: HNode?, tWhich: int) {
      this.addr, this.next, this.child, this.tWhich := addr, next, child, tWhich;
    }
  }

  /** A node with the siblings below it. */
  datatype Sib = Sib(node: HNode, kids: seq<Sib>)

  ghost predicate Forest(p: HNode?, s: seq<Sib>) {
    if s == [] then p == null
    else p == s[0].node && Forest(s[0].node.child, s[0].kids) && Forest(s[0].node.next, s[1..])
  }

  ghost function HNodes(s: seq<Sib>): set<HNode> {
    if s == [] then {} else {s[0].node} + HNodes(s[0].kids) + HNodes(s[1..])
  }

  /** No node occurs twice. */
  ghost predicate Once(s: seq<Sib>) {
    s != [] ==>
      && Once(s[0].kids) && Once(s[1..]) && s[0].node !in HNodes(s[0].kids) && s[0].node !in HNodes(s[1..])
      && HNodes(s[0].kids) !! HNodes(s[1..])
  }

  /** Addresses identify nodes. */
  ghost predicate Addressed(all: set<HNode>) {
    forall m, n {:trigger m.addr, n.addr} :: m in all && n in all && m.addr == n.addr ==> m == n
  }

  lemma {:induction false} InForest(s: seq<Sib>, j: nat)
    requires j < |s|
    ensures s[j].node in HNodes(s) && HNodes(s[j].kids) <= HNodes(s)
    ensures Once(s) ==> Once(s[j..]) && Once(s[j].kids)
  {
    if j == 0 {
      assert s[0..] == s;
    } else {
      InForest(s[1..], j - 1);
      assert s[1..][j - 1..] == s[j..];
    }
  }

  /** Distinct siblings have distinct nodes and disjoint families. */
  lemma SibsApart(s: seq<Sib>, i: nat, j: nat)
    requires Once(s) && i < |s| && j < |s|
    ensures s[i].node !in HNodes(s[j].kids)
    ensures i != j ==> s[i].node != s[j].node && HNodes(s[i].kids) !! HNodes(s[j].kids)
  {
    InForest(s, i);
    InForest(s, j);
    if i < j {
      InForest(s[i..][1..], j - i - 1);
      assert s[i..][1..][j - i - 1] == s[j];
    } else if j < i {
      InForest(s[j..][1..], i - j - 1);
      assert s[j..][1..][i - j - 1] == s[i];
    } else {
      assert Once(s[i..]);
    }
  }

  /** The nodes below the first k siblings, and those siblings from k on. */
  ghost function Below(s: seq<Sib>, k: nat): set<HNode>
    requires k <= |s|
  {
    if k == 0 then {} else Below(s, k - 1) + HNodes(s[k - 1].kids)
  }

  ghost function From(s: seq<Sib>, k: nat): set<HNode>
    requires k <= |s|
  {
    set j | k <= j < |s| :: s[j].node
  }

  lemma {:induction false} BelowApart(s: seq<Sib>, k: nat, j: nat)
    requires Once(s) && k <= |s| && j < |s|
    ensures s[j].node !in Below(s, k)
    ensures k <= j ==> Below(s, k) !! HNodes(s[j].kids)
    ensures Below(s, k) <= HNodes(s)
  {
    if k > 0 {
      BelowApart(s, k - 1, j);
      SibsApart(s, k - 1, j);
      SibsApart(s, j, k - 1);
      InForest(s, k - 1);
    }
  }

  lemma FromApart(s: seq<Sib>, k: nat)
    requires Once(s) && k < |s|
    ensures From(s, k) == From(s, k + 1) + {s[k].node} && s[k].node !in From(s, k + 1)
  {
    forall j | k < j < |s| ensures s[j].node != s[k].node { SibsApart(s, k, j); }
    assert s[k].node in From(s, k);
  }

  lemma {:induction false} BelowGrows(s: seq<Sib>, k: nat, l: nat)
    requires k <= l <= |s|
    ensures Below(s, k) <= Below(s, l)
  {
    if k < l {
      BelowGrows(s, k, l - 1);
    }
  }

  lemma {:induction false} AllNodes(s: seq<Sib>, k: nat)
    requires k <= |s|
    ensures HNodes(s[k..]) <= Below(s, |s|) + From(s, k)
    decreases |s| - k
  {
    if k < |s| {
      AllNodes(s, k + 1);
      assert s[k..][1..] == s[k + 1..];
      BelowGrows(s, k + 1, |s|);
      assert s[k].node in From(s, k) && From(s, k + 1) <= From(s, k);
    }
  }

  ghost function Addrs(ns: set<HNode>): set<int> {
    set n | n in ns :: n.addr
  }

  /** The old entries are kept and the new keys are addresses of ns. */
  ghost predicate Extends(m0: map<int, S.Payload>, m: map<int, S.Payload>, ns: set<HNode>) {
    m.Keys <= m0.Keys + Addrs(ns) && m0.Keys <= m.Keys && forall k {:trigger m[k]} :: k in m0 ==> m[k] == m0[k]
  }

  /** Each of these nodes is stored with its index and the symbol the index refers to. */
  ghost predicate Stored(m: map<int, S.Payload>, ns: set<HNode>, w: map<HNode, int>, facs: seq<Symbol>) {
    forall n {:trigger w[n]} :: n in ns && n in w && 0 <= w[n] ==>
      w[n] < |facs| && n.addr in m && m[n.addr] == S.Payload(w[n], facs[w[n]].addr)
  }

  /** The indices the nodes have now. */
  ghost predicate Now(all: set<HNode>, w: map<HNode, int>, n: int)
    reads all
  {
    all <= w.Keys && forall h {:trigger w[h]} :: h in all ==> w[h] == h.tWhich < n
  }

  /** Entries for the nodes of d have been added to m0. */
  ghost predicate Built(m0: map<int, S.Payload>, m: map<int, S.Payload>, d: set<HNode>, w: map<HNode, int>, facs: seq<Symbol>) {
    Extends(m0, m, d) && Stored(m, d, w, facs)
  }

  lemma BuiltMore(m0: map<int, S.Payload>, m1: map<int, S.Payload>, m2: map<int, S.Payload>, d: set<HNode>, e: set<HNode>, w: map<HNode, int>, facs: seq<Symbol>)
    requires Built(m0, m1, d, w, facs) && Built(m1, m2, e, w, facs)
    ensures Built(m0, m2, d + e, w, facs)
  {
    forall k {:trigger m2[k]} | k in m0 ensures m2[k] == m0[k] { assert m1[k] == m0[k]; }
    forall n {:trigger w[n]} | n in d + e && n in w && 0 <= w[n]
      ensures w[n] < |facs| && n.addr in m2 && m2[n.addr] == S.Payload(w[n], facs[w[n]].addr)
    {
      if n in d {
        assert m2[n.addr] == m1[n.addr];
      }
    }
  }

  lemma BuiltLess(m0: map<int, S.Payload>, m: map<int, S.Payload>, d: set<HNode>, e: set<HNode>, w: map<HNode, int>, facs: seq<Symbol>)
    requires Built(m0, m, d, w, facs) && e == d
    ensures Built(m0, m, e, w, facs)
  {
  }

  /** Keys of other nodes are not in the map. */
  lemma NotYet(m0: map<int, S.Payload>, m: map<int, S.Payload>, d: set<HNode>, e: set<HNode>, all: set<HNode>)
    requires Extends(m0, m, d) && m0.Keys !! Addrs(e) && d !! e && d <= all && e <= all && Addressed(all)
    ensures m.Keys !! Addrs(e)
  {
  }

  /** recurse_tree_build_whichcache: every node is stored under its address with its index and symbol. */
  method BuildWhichCache(cache: Cache, facs: array<Symbol>, t: HNode?, ghost s: seq<Sib>, ghost all: set<HNode>, ghost w: map<HNode, int>)
    requires cache.Valid() && Forest(t, s) && Once(s) && HNodes(s) <= all && Addressed(all) && Now(all, w, facs.Length)
    requires cache.Map().Keys !! Addrs(HNodes(s))
    modifies cache, cache.nodes
    ensures cache.Valid() && fresh(cache.nodes - old(cache.nodes))
    ensures Built(old(cache.Map()), cache.Map(), HNodes(s), w, facs[..])
    decreases s
  {
    if t != null {
      ghost var m0 := cache.Map();
      var ar := Descend(cache, facs, t, s, all, w);
      ghost var d := Below(s, |s|);
      for i := |ar| downto 0
        invariant cache.Valid() && fresh(cache.nodes - old(cache.nodes))
        invariant Built(m0, cache.Map(), Below(s, |s|) + From(s, i), w, facs[..])
      {
        AddNode(cache, facs, ar[i], s, i, m0, all, w);
      }
      AllNodes(s, 0);
      assert s[0..] == s;
      AllAre(s);
      BuiltLess(m0, cache.Map(), Below(s, |s|) + From(s, 0), HNodes(s), w, facs[..]);
    }
  }

  lemma FromWithin(s: seq<Sib>)
    ensures From(s, 0) <= HNodes(s)
  {
    forall n | n in From(s, 0) ensures n in HNodes(s) {
      var j: nat :| j < |s| && s[j].node == n;
      InForest(s, j);
    }
  }

  lemma AllAre(s: seq<Sib>)
    requires Once(s)
    ensures Below(s, |s|) + From(s, 0) == HNodes(s)
  {
    AllNodes(s, 0);
    assert s[0..] == s;
    FromWithin(s);
    if s != [] {
      BelowApart(s, |s|, 0);
    }
  }

  /** The walk along the siblings has listed the first ones and stands at the next. */
  ghost predicate Walked(t: HNode?, s: seq<Sib>, ar: seq<HNode>) {
    |ar| <= |s| && Forest(t, s[|ar|..]) && forall k {:trigger ar[k]} :: 0 <= k < |ar| ==> ar[k] == s[k].node
  }

  lemma WalkOn(t: HNode, s: seq<Sib>, ar: seq<HNode>)
    requires Walked(t, s, ar)
    ensures |ar| < |s| && t == s[|ar|].node && Forest(t.child, s[|ar|].kids) && Walked(t.next, s, ar + [t])
  {
    assert s[|ar|..][0] == s[|ar|] && s[|ar|..][1..] == s[|ar| + 1..];
  }

  /** The first pass: lists the siblings and stores what is below them. */
  method Descend(cache: Cache, facs: array<Symbol>, t: HNode, ghost s: seq<Sib>, ghost all: set<HNode>, ghost w: map<HNode, int>)
    returns (ar: seq<HNode>)
    requires cache.Valid() && Forest(t, s) && Once(s) && HNodes(s) <= all && Addressed(all) && Now(all, w, facs.Length)
    requires cache.Map().Keys !! Addrs(HNodes(s))
    modifies cache, cache.nodes
    ensures cache.Valid() && fresh(cache.nodes - old(cache.nodes))
    ensures |ar| == |s| && forall k {:trigger ar[k]} :: 0 <= k < |s| ==> ar[k] == s[k].node
    ensures Built(old(cache.Map()), cache.Map(), Below(s, |s|), w, facs[..])
    decreases s, 0, 1
  {
    ghost var m0 := cache.Map();
    var t2: HNode? := t;
    ar := [];
    while t2 != null
      invariant Walked(t2, s, ar)
      invariant cache.Valid() && fresh(cache.nodes - old(cache.nodes))
      invariant Built(m0, cache.Map(), Below(s, |ar|), w, facs[..])
      decreases |s| - |ar|
    {
      WalkOn(t2, s, ar);
      ar := ar + [t2];
      BuildFamily(cache, facs, t2, s, |ar| - 1, m0, all, w);
      t2 := t2.next;
    }
  }

  /** Stores what is below sibling k. */
  method BuildFamily(cache: Cache, facs: array<Symbol>, t: HNode, ghost s: seq<Sib>, ghost k: nat, ghost m0: map<int, S.Payload>, ghost all: set<HNode>, ghost w: map<HNode, int>)
    requires cache.Valid() && k < |s| && Forest(t.child, s[k].kids) && Once(s) && HNodes(s) <= all && Addressed(all) && Now(all, w, facs.Length)
    requires m0.Keys !! Addrs(HNodes(s)) && Built(m0, cache.Map(), Below(s, k), w, facs[..])
    modifies cache, cache.nodes
    ensures cache.Valid() && fresh(cache.nodes - old(cache.nodes))
    ensures Built(m0, cache.Map(), Below(s, k + 1), w, facs[..])
    decreases s, 0, 0
  {
    ghost var m1 := cache.Map();
    InForest(s, k);
    BelowApart(s, k, k);
    NotYet(m0, m1, Below(s, k), HNodes(s[k].kids), all);
    BuildWhichCache(cache, facs, t.child, s[k].kids, all, w);
    BuiltMore(m0, m1, cache.Map(), Below(s, k), HNodes(s[k].kids), w, facs[..]);
  }

  method AddNode(cache: Cache, facs: array<Symbol>, t: HNode, ghost s: seq<Sib>, ghost i: nat, ghost m0: map<int, S.Payload>, ghost all: set<HNode>, ghost w: map<HNode, int>)
    requires cache.Valid() && i < |s| && t == s[i].node && Once(s) && HNodes(s) <= all && Addressed(all) && Now(all, w, facs.Length)
    requires m0.Keys !! Addrs(HNodes(s)) && Built(m0, cache.Map(), Below(s, |s|) + From(s, i + 1), w, facs[..])
    modifies cache, cache.nodes
    ensures cache.Valid() && fresh(cache.nodes - old(cache.nodes))
    ensures Built(m0, cache.Map(), Below(s, |s|) + From(s, i), w, facs[..])
  {
    ghost var m1 := cache.Map();
    ghost var d := Below(s, |s|) + From(s, i + 1);
    TopNotYet(s, i, m0, m1, d, all);
    assert w[t] == t.tWhich;
    if t.tWhich >= 0 {
      cache.Add(t.addr, t.tWhich, facs[t.tWhich].addr);
    }
    AddedOne(m1, cache.Map(), t, w, facs[..]);
    BuiltMore(m0, m1, cache.Map(), d, {t}, w, facs[..]);
  }

  /** Sibling i itself is not stored while those behind it are. */
  lemma TopNotYet(s: seq<Sib>, i: nat, m0: map<int, S.Payload>, m1: map<int, S.Payload>, d: set<HNode>, all: set<HNode>)
    requires i < |s| && Once(s) && HNodes(s) <= all && Addressed(all) && m0.Keys !! Addrs(HNodes(s))
    requires d == Below(s, |s|) + From(s, i + 1) && Extends(m0, m1, d)
    ensures var t := s[i].node; t in all && t.addr !in m1 && t.addr in Addrs({t}) && d + {t} == Below(s, |s|) + From(s, i)
  {
    var t := s[i].node;
    InForest(s, i);
    BelowApart(s, |s|, i);
    FromApart(s, i);
    AllAre(s);
    NotYet(m0, m1, d, {t}, all);
    assert t.addr in Addrs({t});
  }

  lemma AddedOne(m1: map<int, S.Payload>, m2: map<int, S.Payload>, t: HNode, w: map<HNode, int>, facs: seq<Symbol>)
    requires t in w && w[t] < |facs| && t.addr !in m1
    requires m2 == if w[t] >= 0 then m1[t.addr := S.Payload(w[t], facs[w[t]].addr)] else m1
    ensures Built(m1, m2, {t}, w, facs)
  {
    assert t.addr in Addrs({t});
  }

  /* ---------- after the sort ---------- */

  /** Node n with old index w[n] leads through its stored symbol to the new index u[n]. */
  ghost predicate Leads(g: map<int, S.Payload>, c: map<int, S.Payload>, n: HNode, w: map<HNode, int>, u: map<HNode, int>) {
    && n in w && n in u
    && if w[n] < 0 then u[n] == w[n] else n.addr in g && g[n.addr].sym in c && u[n] == c[g[n.addr].sym].valOld
  }

  ghost predicate AllLead(g: map<int, S.Payload>, c: map<int, S.Payload>, all: set<HNode>, w: map<HNode, int>, u: map<HNode, int>) {
    forall n {:trigger Leads(g, c, n, w, u)} :: n in all ==> Leads(g, c, n, w, u)
  }

  ghost predicate Has(n: HNode, w: map<HNode, int>)
    reads n
  {
    n in w && n.tWhich == w[n]
  }

  ghost predicate At(ns: set<HNode>, w: map<HNode, int>)
    reads ns
  {
    forall n {:trigger Has(n, w)} :: n in ns ==> Has(n, w)
  }

  /** The two caches hold these entries. */
  ghost predicate Holding(gwt: Cache, corr: Cache, g: map<int, S.Payload>, c: map<int, S.Payload>)
    reads gwt, corr, gwt.nodes, corr.nodes
  {
    && gwt.Valid() && corr.Valid() && gwt != corr && gwt.nodes !! corr.nodes
    && gwt.Map() == g && corr.Map() == c
  }

  method FixNode(gwt: Cache, corr: Cache, t: HNode, ghost w: map<HNode, int>, ghost u: map<HNode, int>,
      ghost g: map<int, S.Payload>, ghost c: map<int, S.Payload>)
    requires Holding(gwt, corr, g, c) && Has(t, w) && Leads(g, c, t, w, u)
    modifies gwt, corr, gwt.nodes, corr.nodes, t
    ensures Holding(gwt, corr, g, c) && gwt.nodes == old(gwt.nodes) && corr.nodes == old(corr.nodes)
    ensures Has(t, u)
  {
    if t.tWhich >= 0 {
      var n := gwt.Find(t.addr);
      var m := corr.Find(n.sym);
      t.tWhich := m.valOld;
    }
  }

  /** recurse_tree_fix_from_whichcache: every index is replaced by the new index of the same symbol. */
  method FixFromWhichCache(gwt: Cache, corr: Cache, t: HNode?, ghost s: seq<Sib>, ghost all: set<HNode>,
      ghost w: map<HNode, int>, ghost u: map<HNode, int>, ghost g: map<int, S.Payload>, ghost c: map<int, S.Payload>)
    requires Holding(gwt, corr, g, c) && Forest(t, s) && Once(s) && HNodes(s) <= all && AllLead(g, c, all, w, u)
    requires At(HNodes(s), w)
    modifies gwt, corr, gwt.nodes, corr.nodes, HNodes(s)
    ensures Holding(gwt, corr, g, c) && gwt.nodes == old(gwt.nodes) && corr.nodes == old(corr.nodes)
    ensures At(HNodes(s), u)
    decreases s
  {
    if t != null {
      AllAre(s);
      var ar := DescendFix(gwt, corr, t, s, all, w, u, g, c);
      ghost var b := Below(s, |s|);
      for i := |ar| downto 0
        invariant Holding(gwt, corr, g, c) && gwt.nodes == old(gwt.nodes) && corr.nodes == old(corr.nodes)
        invariant At(b + From(s, i), u) && At(From(s, 0) - From(s, i), w)
      {
        FixSibling(gwt, corr, ar[i], s, i, all, b, w, u, g, c);
      }
    }
  }

  method FixSibling(gwt: Cache, corr: Cache, t: HNode, ghost s: seq<Sib>, ghost i: nat, ghost all: set<HNode>, ghost b: set<HNode>,
      ghost w: map<HNode, int>, ghost u: map<HNode, int>, ghost g: map<int, S.Payload>, ghost c: map<int, S.Payload>)
    requires Holding(gwt, corr, g, c) && i < |s| && t == s[i].node && Once(s) && HNodes(s) <= all && AllLead(g, c, all, w, u)
    requires b == Below(s, |s|) && At(b + From(s, i + 1), u) && At(From(s, 0) - From(s, i + 1), w)
    modifies gwt, corr, gwt.nodes, corr.nodes, t
    ensures Holding(gwt, corr, g, c) && gwt.nodes == old(gwt.nodes) && corr.nodes == old(corr.nodes)
    ensures At(b + From(s, i), u) && At(From(s, 0) - From(s, i), w)
  {
    ghost var done, rest := b + From(s, i + 1), From(s, 0) - From(s, i);
    NextUp(s, i);
    AllAre(s);
    assert Leads(g, c, t, w, u) && Has(t, w);
    FixNode(gwt, corr, t, w, u, g, c);
    assert At(done, u) && At(rest, w);
  }

  lemma NextUp(s: seq<Sib>, i: nat)
    requires Once(s) && i < |s|
    ensures var n := s[i].node; n !in Below(s, |s|) && n !in From(s, i + 1) && n in From(s, 0) && n in HNodes(s)
    ensures From(s, i) == From(s, i + 1) + {s[i].node}
  {
    FromApart(s, i);
    BelowApart(s, |s|, i);
    InForest(s, i);
  }

  /** What is below the first k siblings has its new indices, and nothing else has. */
  ghost predicate HalfFixed(s: seq<Sib>, k: nat, w: map<HNode, int>, u: map<HNode, int>)
    reads Below(s, if k <= |s| then k else 0), HNodes(s)
  {
    k <= |s| && At(Below(s, k), u) && At(HNodes(s) - Below(s, k), w)
  }

  method DescendFix(gwt: Cache, corr: Cache, t: HNode, ghost s: seq<Sib>, ghost all: set<HNode>,
      ghost w: map<HNode, int>, ghost u: map<HNode, int>, ghost g: map<int, S.Payload>, ghost c: map<int, S.Payload>)
    returns (ar: seq<HNode>)
    requires Holding(gwt, corr, g, c) && Forest(t, s) && Once(s) && HNodes(s) <= all && AllLead(g, c, all, w, u)
    requires At(HNodes(s), w)
    modifies gwt, corr, gwt.nodes, corr.nodes, Below(s, |s|)
    ensures Holding(gwt, corr, g, c) && gwt.nodes == old(gwt.nodes) && corr.nodes == old(corr.nodes)
    ensures |ar| == |s| && forall k {:trigger ar[k]} :: 0 <= k < |s| ==> ar[k] == s[k].node
    ensures At(Below(s, |s|), u) && At(From(s, 0), w)
    decreases s, 0, 1
  {
    var t2: HNode? := t;
    ar := [];
    AllAre(s);
    while t2 != null
      invariant Walked(t2, s, ar)
      invariant Holding(gwt, corr, g, c) && gwt.nodes == old(gwt.nodes) && corr.nodes == old(corr.nodes)
      invariant HalfFixed(s, |ar|, w, u)
      decreases |s| - |ar|
    {
      ghost var k := |ar|;
      WalkOn(t2, s, ar);
      Families(s, k);
      ar := ar + [t2];
      FixFamily(gwt, corr, t2, s, k, all, w, u, g, c);
      t2 := t2.next;
    }
    TopsLeft(s);
  }

  method FixFamily(gwt: Cache, corr: Cache, t: HNode, ghost s: seq<Sib>, ghost k: nat, ghost all: set<HNode>,
      ghost w: map<HNode, int>, ghost u: map<HNode, int>, ghost g: map<int, S.Payload>, ghost c: map<int, S.Payload>)
    requires Holding(gwt, corr, g, c) && k < |s| && Forest(t.child, s[k].kids) && Once(s) && HNodes(s) <= all && AllLead(g, c, all, w, u)
    requires HalfFixed(s, k, w, u)
    modifies gwt, corr, gwt.nodes, corr.nodes, HNodes(s[k].kids)
    ensures Holding(gwt, corr, g, c) && gwt.nodes == old(gwt.nodes) && corr.nodes == old(corr.nodes)
    ensures HalfFixed(s, k + 1, w, u)
    decreases s, 0, 0
  {
    ghost var done, rest := Below(s, k), HNodes(s) - Below(s, k + 1);
    Families(s, k);
    FixFromWhichCache(gwt, corr, t.child, s[k].kids, all, w, u, g, c);
    assert At(done, u) && At(rest, w);
  }

  lemma Families(s: seq<Sib>, k: nat)
    requires Once(s) && k < |s|
    ensures Once(s[k].kids) && HNodes(s[k].kids) <= HNodes(s) && Below(s, k) <= HNodes(s)
    ensures HNodes(s[k].kids) !! Below(s, k) && Below(s, k + 1) == Below(s, k) + HNodes(s[k].kids)
    ensures HNodes(s[k].kids) <= Below(s, |s|)
  {
    InForest(s, k);
    BelowApart(s, k, k);
    BelowGrows(s, k + 1, |s|);
  }

  lemma TopsLeft(s: seq<Sib>)
    requires Once(s)
    ensures From(s, 0) <= HNodes(s) - Below(s, |s|)
  {
    forall j | 0 <= j < |s| ensures s[j].node in HNodes(s) && s[j].node !in Below(s, |s|) {
      InForest(s, j);
      BelowApart(s, |s|, j);
    }
  }

  /* ---------- the whole sort ---------- */

  ghost predicate Distinct(facs: seq<Symbol>) {
    forall i, j {:trigger facs[i].addr, facs[j].addr} :: 0 <= i < |facs| && 0 <= j < |facs| && facs[i].addr == facs[j].addr ==> i == j
  }

  /** The first k symbols are stored with their indices. */
  ghost predicate Indexed(m: map<int, S.Payload>, facs: seq<Symbol>, k: nat) {
    && k <= |facs|
    && (forall j {:trigger facs[j]} :: 0 <= j < k ==> facs[j].addr in m && m[facs[j].addr] == S.Payload(j, 0))
    && forall a {:trigger a in m} :: a in m ==> exists j :: 0 <= j < k && facs[j].addr == a
  }

  lemma IndexedNext(m: map<int, S.Payload>, facs: seq<Symbol>, k: nat)
    requires Indexed(m, facs, k) && k < |facs| && Distinct(facs)
    ensures facs[k].addr !in m && Indexed(m[facs[k].addr := S.Payload(k, 0)], facs, k + 1)
  {
    var m' := m[facs[k].addr := S.Payload(k, 0)];
    forall a {:trigger a in m'} | a in m' ensures exists j :: 0 <= j < k + 1 && facs[j].addr == a {
      if a in m {
        var j :| 0 <= j < k && facs[j].addr == a;
      } else {
        assert facs[k].addr == a;
      }
    }
  }

  method IndexFacs(corr: Cache, facs: array<Symbol>)
    requires corr.Valid() && corr.Map() == map[] && Distinct(facs[..])
    modifies corr, corr.nodes
    ensures corr.Valid() && fresh(corr.nodes - old(corr.nodes)) && Indexed(corr.Map(), facs[..], facs.Length)
  {
    for i := 0 to facs.Length
      invariant corr.Valid() && fresh(corr.nodes - old(corr.nodes)) && Indexed(corr.Map(), facs[..], i)
    {
      IndexedNext(corr.Map(), facs[..], i);
      corr.Add(facs[i].addr, i, 0);
    }
  }

  lemma DistinctKept(a: seq<Symbol>, b: seq<Symbol>)
    requires multiset(a) == multiset(b) && Distinct(a)
    ensures Distinct(b)
  {
    forall i, j {:trigger b[i].addr, b[j].addr} | 0 <= i < |b| && 0 <= j < |b| && b[i].addr == b[j].addr ensures i == j {
      if i != j {
        assert b[i] in multiset(b) && b[j] in multiset(b);
        var p :| 0 <= p < |a| && a[p] == b[i];
        var q :| 0 <= q < |a| && a[q] == b[j];
        assert a[p].addr == a[q].addr;
        TwiceIn(b, i, j);
        OnceIn(a, p);
      }
    }
  }

  lemma TwiceIn(b: seq<Symbol>, i: nat, j: nat)
    requires i < |b| && j < |b| && i != j && b[i] == b[j]
    ensures multiset(b)[b[i]] >= 2
  {
    var lo, hi := if i < j then i else j, if i < j then j else i;
    assert b == b[..lo] + [b[lo]] + b[lo + 1..hi] + [b[hi]] + b[hi + 1..];
  }

  lemma OnceIn(a: seq<Symbol>, p: nat)
    requires Distinct(a) && p < |a|
    ensures multiset(a)[a[p]] == 1
  {
    assert a == a[..p] + [a[p]] + a[p + 1..];
    forall k | 0 <= k < |a| && k != p ensures a[k] != a[p] { assert a[k].addr != a[p].addr; }
  }

  /** The new index of a node refers to the symbol its old index referred to. */
  ghost predicate SameSymbol(facs0: seq<Symbol>, which0: int, facs: seq<Symbol>, which: int) {
    if which0 < 0 then which == which0
    else 0 <= which < |facs| && which0 < |facs0| && facs[which] == facs0[which0]
  }

  /** Built before the sort, indexed after it: every node is led to its own symbol. */
  lemma LedHome(g: map<int, S.Payload>, c: map<int, S.Payload>, all: set<HNode>, w: map<HNode, int>, facs0: seq<Symbol>, facs: seq<Symbol>)
    returns (u: map<HNode, int>)
    requires Stored(g, all, w, facs0) && Indexed(c, facs, |facs|) && multiset(facs0) == multiset(facs)
    requires all <= w.Keys
    ensures AllLead(g, c, all, w, u)
    ensures forall n {:trigger u[n]} :: n in all ==> n in u && SameSymbol(facs0, w[n], facs, u[n])
  {
    forall n | n in all && w[n] >= 0
      ensures w[n] < |facs0| && n.addr in g && g[n.addr].sym in c && SameSymbol(facs0, w[n], facs, c[g[n.addr].sym].valOld)
    {
      var x := facs0[w[n]];
      assert x in multiset(facs0);
      assert x in multiset(facs);
      var j :| 0 <= j < |facs| && facs[j] == x;
      assert facs[j].addr in c;
    }
    u := map n | n in all :: if w[n] < 0 then w[n] else c[g[n.addr].sym].valOld;
  }

  ghost predicate Home(n: HNode, w: map<HNode, int>, facs0: seq<Symbol>, facs: seq<Symbol>)
    reads n
  {
    n in w && SameSymbol(facs0, w[n], facs, n.tWhich)
  }

  /** The second half, on the sorted array. */
  method Reindex(gwt: Cache, facs: array<Symbol>, treeroot: HNode?, ghost s: seq<Sib>, ghost all: set<HNode>,
      ghost w: map<HNode, int>, ghost facs0: seq<Symbol>)
    requires gwt.Valid() && Forest(treeroot, s) && Once(s) && HNodes(s) == all && At(all, w) && all <= w.Keys
    requires Stored(gwt.Map(), all, w, facs0) && multiset(facs0) == multiset(facs[..]) && Distinct(facs0)
    modifies gwt, gwt.nodes, all
    ensures forall n {:trigger Home(n, w, facs0, facs[..])} :: n in all ==> Home(n, w, facs0, facs[..])
  {
    ghost var g, fs := gwt.Map(), facs[..];
    DistinctKept(facs0, fs);
    var corr := new Cache();
    IndexFacs(corr, facs);
    ghost var c := corr.Map();
    ghost var u := LedHome(g, c, all, w, facs0, fs);
    assert Holding(gwt, corr, g, c);
    FixFromWhichCache(gwt, corr, treeroot, s, all, w, u, g, c);
    forall n {:trigger Home(n, w, facs0, fs)} | n in all ensures Home(n, w, facs0, fs) {
      assert Has(n, u) && u[n] == n.tWhich;
    }
  }

  /**
    ghw_sortfacs: the facilities are permuted, sorted if sigcmp orders the names, and every hierarchy node refers through its new index
    to the symbol it referred to before.
   */
  method SortFacs(facs: array<Symbol>, treeroot: HNode?, fast: bool, ghost s: seq<Sib>, ghost all: set<HNode>)
    requires Forest(treeroot, s) && Once(s) && HNodes(s) == all && Addressed(all)
    requires (forall n :: n in all ==> n.tWhich < facs.Length)
    requires 1 <= facs.Length && Distinct(facs[..]) && Named(facs[..], false)
    modifies facs, all
    ensures multiset(facs[..]) == multiset(old(facs[..])) && (Ordered(old(facs[..]), fast) ==> Rising(facs[..], fast))
    ensures forall n :: n in all ==> SameSymbol(old(facs[..]), old(n.tWhich), facs[..], n.tWhich)
  {
    ghost var w := map n | n in all :: n.tWhich;
    ghost var facs0 := facs[..];
    var gwt := new Cache();
    BuildWhichCache(gwt, facs, treeroot, s, all, w);
    assert Stored(gwt.Map(), all, w, facs0);
    WaveHeapsort(facs, fast);
    assert At(all, w);
    Reindex(gwt, facs, treeroot, s, all, w, facs0);
    assert forall n :: n in all ==> Home(n, w, facs0, facs[..]);
  }
}
