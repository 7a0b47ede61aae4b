/** Top-down splay trees over nodes linked in place. */
module Splay {
  class Node {
    var left: Node?
    var right: Node?
    const item: int
    const valOld: int
    const sym: int

    constructor (item: int, valOld: int, sym: int)
      ensures left == null && right == null && this.item == item && this.valOld == valOld && this.sym == sym
    {
      left, right := null, null;
      this.item, this.valOld, this.sym := item, valOld, sym;
    }
  }

  /** The shape of a linked tree. */
  datatype Tree = Leaf | Tree(left: Tree, node: Node, right: Tree)

  ghost function InOrder(t: Tree): seq<Node> {
    match t
    case Leaf => []
    case Tree(l, n, r) => InOrder(l) + [n] + InOrder(r)
  }

  ghost function Nodes(t: Tree): set<Node> {
    match t
    case Leaf => {}
    case Tree(l, n, r) => Nodes(l) + {n} + Nodes(r)
  }

  /** No node occurs twice. */
  ghost predicate Proper(t: Tree) {
    t.Tree? ==>
      && Proper(t.left) && Proper(t.right) && t.node !in Nodes(t.left) && t.node !in Nodes(t.right)
      && Nodes(t.left) !! Nodes(t.right)
  }

  /** p points to a linked tree of shape t. */
  ghost predicate Repr(p: Node?, t: Tree)
    reads Nodes(t)
  {
    match t
    case Leaf => p == null
    case Tree(l, n, r) => p == n && Repr(n.left, l) && Repr(n.right, r)
  }

  /* ---------- the trees set aside while the search goes down ---------- */

  /** A node set aside with the subtree on its far side; its other link will be to the next one. */
  datatype Aside = Aside(tree: Tree, node: Node)

  ghost function SideNodes(s: seq<Aside>): set<Node> {
    if s == [] then {} else SideNodes(s[..|s| - 1]) + Nodes(s[|s| - 1].tree) + {s[|s| - 1].node}
  }

  ghost predicate SideProper(s: seq<Aside>) {
    s != [] ==>
      var a := s[|s| - 1];
      && SideProper(s[..|s| - 1]) && Proper(a.tree) && a.node !in Nodes(a.tree)
      && a.node !in SideNodes(s[..|s| - 1]) && Nodes(a.tree) !! SideNodes(s[..|s| - 1])
  }

  /** The left tree: head is the right link of the dummy node; each node's right link leads to the next. */
  ghost predicate LeftChain(head: Node?, s: seq<Aside>)
    reads SideNodes(s)
  {
    s != [] ==>
      var k := |s| - 1;
      && LeftChain(head, s[..k]) && Repr(s[k].node.left, s[k].tree)
      && s[k].node == if k == 0 then head else s[..k][k - 1].node.right
  }

  /** The right tree, mirrored. */
  ghost predicate RightChain(head: Node?, s: seq<Aside>)
    reads SideNodes(s)
  {
    s != [] ==>
      var k := |s| - 1;
      && RightChain(head, s[..k]) && Repr(s[k].node.right, s[k].tree)
      && s[k].node == if k == 0 then head else s[..k][k - 1].node.left
  }

  ghost function LeftFlat(s: seq<Aside>): seq<Node> {
    if s == [] then [] else LeftFlat(s[..|s| - 1]) + InOrder(s[|s| - 1].tree) + [s[|s| - 1].node]
  }

  ghost function RightFlat(s: seq<Aside>): seq<Node> {
    if s == [] then [] else [s[|s| - 1].node] + InOrder(s[|s| - 1].tree) + RightFlat(s[..|s| - 1])
  }

  /** The left tree with t linked behind its last node. */
  ghost function LeftClosed(s: seq<Aside>, t: Tree): Tree {
    if s == [] then t else LeftClosed(s[..|s| - 1], Tree(s[|s| - 1].tree, s[|s| - 1].node, t))
  }

  ghost function RightClosed(s: seq<Aside>, t: Tree): Tree {
    if s == [] then t else RightClosed(s[..|s| - 1], Tree(t, s[|s| - 1].node, s[|s| - 1].tree))
  }

  /** The search: the trees set aside on the left and on the right, and the tree still ahead. */
  datatype Zip = Zip(lefts: seq<Aside>, tree: Tree, rights: seq<Aside>)

  ghost predicate ZipProper(z: Zip, dummy: Node) {
    && z.tree.Tree? && SideProper(z.lefts) && Proper(z.tree) && SideProper(z.rights)
    && SideNodes(z.lefts) !! Nodes(z.tree) && SideNodes(z.lefts) !! SideNodes(z.rights) && Nodes(z.tree) !! SideNodes(z.rights)
    && dummy !in ZipNodes(z)
  }

  ghost function ZipNodes(z: Zip): set<Node> {
    SideNodes(z.lefts) + Nodes(z.tree) + SideNodes(z.rights)
  }

  ghost function Flat(z: Zip): seq<Node> {
    LeftFlat(z.lefts) + InOrder(z.tree) + RightFlat(z.rights)
  }

  /** The node whose link comes next: the last one set aside, or the dummy. */
  ghost function Last(s: seq<Aside>, dummy: Node): Node {
    if s == [] then dummy else s[|s| - 1].node
  }

  ghost predicate Searching(dummy: Node, z: Zip, l: Node, t: Node, r: Node)
    reads dummy, ZipNodes(z)
  {
    && ZipProper(z, dummy) && Repr(t, z.tree)
    && LeftChain(dummy.right, z.lefts) && RightChain(dummy.left, z.rights)
    && l == Last(z.lefts, dummy) && r == Last(z.rights, dummy)
  }

  /* ---------- the steps of the search ---------- */

  ghost function RotatedRight(t: Tree): Tree
    requires t.Tree? && t.left.Tree?
  {
    Tree(t.left.left, t.left.node, Tree(t.left.right, t.node, t.right))
  }

  ghost function RotatedLeft(t: Tree): Tree
    requires t.Tree? && t.right.Tree?
  {
    Tree(Tree(t.left, t.node, t.right.left), t.right.node, t.right.right)
  }

  lemma Regroup(a: seq<Node>, b: seq<Node>, c: seq<Node>, x: Node, y: Node)
    ensures (a + [x] + b) + [y] + c == a + [x] + (b + [y] + c)
  {
  }

  lemma RotatedRightSame(t: Tree)
    requires t.Tree? && t.left.Tree? && Proper(t)
    ensures Proper(RotatedRight(t)) && Nodes(RotatedRight(t)) == Nodes(t) && InOrder(RotatedRight(t)) == InOrder(t)
  {
    var l := t.left;
    assert Nodes(l) == Nodes(l.left) + {l.node} + Nodes(l.right);
    var r := Tree(l.right, t.node, t.right);
    assert Proper(r) && Nodes(r) == Nodes(l.right) + {t.node} + Nodes(t.right);
    Regroup(InOrder(l.left), InOrder(l.right), InOrder(t.right), l.node, t.node);
  }

  lemma RotatedLeftSame(t: Tree)
    requires t.Tree? && t.right.Tree? && Proper(t)
    ensures Proper(RotatedLeft(t)) && Nodes(RotatedLeft(t)) == Nodes(t) && InOrder(RotatedLeft(t)) == InOrder(t)
  {
    var r := t.right;
    assert Nodes(r) == Nodes(r.left) + {r.node} + Nodes(r.right);
    var l := Tree(t.left, t.node, r.left);
    assert Proper(l) && Nodes(l) == Nodes(t.left) + {t.node} + Nodes(r.left);
    Regroup(InOrder(t.left), InOrder(r.left), InOrder(r.right), t.node, r.node);
  }

  method RotateRight(t0: Node, ghost s: Tree) returns (t: Node)
    requires s.Tree? && s.left.Tree? && Proper(s) && Repr(t0, s)
    modifies s.node, s.left.node
    ensures Repr(t, RotatedRight(s))
  {
    ghost var a, b, c := s.left.left, s.left.right, s.right;
    t := t0;
    assert Repr(t.left, s.left) && Repr(t.right, c);
    var y := t.left;
    assert Repr(y.left, a) && Repr(y.right, b);
    assert t !in Nodes(s.left) && y in Nodes(s.left) && y !in Nodes(c);
    t.left := y.right;
    y.right := t;
    assert Repr(t.left, b) && Repr(t.right, c) && Repr(y.left, a);
    assert Repr(t, Tree(b, t, c));
    t := y;
  }

  method RotateLeft(t0: Node, ghost s: Tree) returns (t: Node)
    requires s.Tree? && s.right.Tree? && Proper(s) && Repr(t0, s)
    modifies s.node, s.right.node
    ensures Repr(t, RotatedLeft(s))
  {
    ghost var a, b, c := s.left, s.right.left, s.right.right;
    t := t0;
    assert Repr(t.left, a) && Repr(t.right, s.right);
    var y := t.right;
    assert Repr(y.left, b) && Repr(y.right, c);
    assert t !in Nodes(s.right) && y in Nodes(s.right) && y !in Nodes(a);
    t.right := y.left;
    y.left := t;
    assert Repr(t.left, a) && Repr(t.right, b) && Repr(y.right, c);
    assert Repr(t, Tree(a, t, b));
    t := y;
  }

  /* ---------- setting the root aside ---------- */

  ghost function LinkedLeft(z: Zip): Zip
    requires z.tree.Tree?
  {
    Zip(z.lefts + [Aside(z.tree.left, z.tree.node)], z.tree.right, z.rights)
  }

  ghost function LinkedRight(z: Zip): Zip
    requires z.tree.Tree?
  {
    Zip(z.lefts, z.tree.left, z.rights + [Aside(z.tree.right, z.tree.node)])
  }

  lemma LinkedLeftSame(z: Zip, dummy: Node)
    requires ZipProper(z, dummy) && z.tree.right.Tree?
    ensures LinkedLeft(z).lefts[..|z.lefts|] == z.lefts && SideProper(LinkedLeft(z).lefts)
    ensures ZipProper(LinkedLeft(z), dummy) && ZipNodes(LinkedLeft(z)) == ZipNodes(z) && Flat(LinkedLeft(z)) == Flat(z)
  {
    var s := LinkedLeft(z).lefts;
    assert s[..|s| - 1] == z.lefts;
    assert SideNodes(s) == SideNodes(z.lefts) + Nodes(z.tree.left) + {z.tree.node};
  }

  lemma LinkedRightSame(z: Zip, dummy: Node)
    requires ZipProper(z, dummy) && z.tree.left.Tree?
    ensures LinkedRight(z).rights[..|z.rights|] == z.rights && SideProper(LinkedRight(z).rights)
    ensures ZipProper(LinkedRight(z), dummy) && ZipNodes(LinkedRight(z)) == ZipNodes(z) && Flat(LinkedRight(z)) == Flat(z)
  {
    var s := LinkedRight(z).rights;
    assert s[..|s| - 1] == z.rights;
    assert SideNodes(s) == SideNodes(z.rights) + Nodes(z.tree.right) + {z.tree.node};
  }

  /** l.right := t, where l is the dummy or the last node of the left tree: the chain now leads to t. */
  method HookRight(dummy: Node, l: Node, t: Node?, ghost s: seq<Aside>)
    requires SideProper(s) && LeftChain(dummy.right, s) && l == Last(s, dummy) && dummy !in SideNodes(s)
    modifies l`right
    ensures LeftChain(dummy.right, s) && t == (if s == [] then dummy.right else l.right)
  {
    if s != [] {
      ghost var k := |s| - 1;
      assert LeftChain(dummy.right, s[..k]) && Repr(l.left, s[k].tree);
      assert k > 0 ==> s[..k][k - 1].node in SideNodes(s[..k]);
    }
    l.right := t;
  }

  method HookLeft(dummy: Node, r: Node, t: Node?, ghost s: seq<Aside>)
    requires SideProper(s) && RightChain(dummy.left, s) && r == Last(s, dummy) && dummy !in SideNodes(s)
    modifies r`left
    ensures RightChain(dummy.left, s) && t == (if s == [] then dummy.left else r.left)
  {
    if s != [] {
      ghost var k := |s| - 1;
      assert RightChain(dummy.left, s[..k]) && Repr(r.right, s[k].tree);
      assert k > 0 ==> s[..k][k - 1].node in SideNodes(s[..k]);
    }
    r.left := t;
  }

  lemma LastIn(s: seq<Aside>, dummy: Node)
    ensures Last(s, dummy) in SideNodes(s) || (s == [] && Last(s, dummy) == dummy)
  {
  }

  lemma ChainMore(head: Node?, s: seq<Aside>, a: Aside, dummy: Node)
    ensures LeftChain(head, s) && Repr(a.node.left, a.tree) && a.node == (if s == [] then head else s[|s| - 1].node.right)
      ==> LeftChain(head, s + [a])
    ensures RightChain(head, s) && Repr(a.node.right, a.tree) && a.node == (if s == [] then head else s[|s| - 1].node.left)
      ==> RightChain(head, s + [a])
  {
    assert (s + [a])[..|s|] == s;
  }

  lemma Apart(dummy: Node, z: Zip)
    requires ZipProper(z, dummy)
    ensures Last(z.lefts, dummy) !in Nodes(z.tree) && Last(z.lefts, dummy) !in SideNodes(z.rights)
    ensures Last(z.rights, dummy) !in Nodes(z.tree) && Last(z.rights, dummy) !in SideNodes(z.lefts)
    ensures dummy !in SideNodes(z.lefts) && dummy !in SideNodes(z.rights) && dummy !in Nodes(z.tree)
  {
    LastIn(z.lefts, dummy);
    LastIn(z.rights, dummy);
  }

  /** The root goes to the left tree, and the search goes on to its right. */
  method LinkLeft(dummy: Node, l0: Node, t0: Node, ghost z: Zip, ghost r: Node, ghost all: set<Node>) returns (l: Node, t: Node)
    requires Searching(dummy, z, l0, t0, r) && z.tree.right.Tree? && ZipNodes(z) <= all
    modifies l0`right
    ensures Searching(dummy, LinkedLeft(z), l, t, r)
  {
    Apart(dummy, z);
    ghost var a, b := z.tree.left, z.tree.right;
    assert Repr(t0.left, a) && Repr(t0.right, b) && t0 == z.tree.node;
    assert l0 !in Nodes(a) && l0 !in Nodes(b) && l0 != t0;
    HookRight(dummy, l0, t0, z.lefts);
    assert Repr(t0.left, a) && Repr(t0.right, b) && RightChain(dummy.left, z.rights);
    LinkedLeftRepr(dummy, z, t0, r);
    l := t0;
    t := t0.right;
  }

  lemma LinkedLeftRepr(dummy: Node, z: Zip, t: Node, r: Node)
    requires ZipProper(z, dummy) && z.tree.right.Tree? && t == z.tree.node
    requires LeftChain(dummy.right, z.lefts) && RightChain(dummy.left, z.rights) && r == Last(z.rights, dummy)
    requires Repr(t.left, z.tree.left) && Repr(t.right, z.tree.right)
    requires t == if z.lefts == [] then dummy.right else z.lefts[|z.lefts| - 1].node.right
    ensures t.right != null && Searching(dummy, LinkedLeft(z), t, t.right, r)
  {
    var z' := LinkedLeft(z);
    assert ZipProper(z', dummy) by { LinkedLeftSame(z, dummy); }
    assert LeftChain(dummy.right, z'.lefts) by { ChainMore(dummy.right, z.lefts, Aside(z.tree.left, z.tree.node), dummy); }
    assert Last(z'.lefts, dummy) == t;
  }

  method LinkRight(dummy: Node, r0: Node, t0: Node, ghost z: Zip, ghost l: Node, ghost all: set<Node>) returns (r: Node, t: Node)
    requires Searching(dummy, z, l, t0, r0) && z.tree.left.Tree? && ZipNodes(z) <= all
    modifies r0`left
    ensures Searching(dummy, LinkedRight(z), l, t, r)
  {
    Apart(dummy, z);
    ghost var a, b := z.tree.left, z.tree.right;
    assert Repr(t0.left, a) && Repr(t0.right, b) && t0 == z.tree.node;
    assert r0 !in Nodes(a) && r0 !in Nodes(b) && r0 != t0;
    HookLeft(dummy, r0, t0, z.rights);
    assert Repr(t0.left, a) && Repr(t0.right, b) && LeftChain(dummy.right, z.lefts);
    LinkedRightRepr(dummy, z, t0, l);
    r := t0;
    t := t0.left;
  }

  lemma LinkedRightRepr(dummy: Node, z: Zip, t: Node, l: Node)
    requires ZipProper(z, dummy) && z.tree.left.Tree? && t == z.tree.node
    requires LeftChain(dummy.right, z.lefts) && RightChain(dummy.left, z.rights) && l == Last(z.lefts, dummy)
    requires Repr(t.left, z.tree.left) && Repr(t.right, z.tree.right)
    requires t == if z.rights == [] then dummy.left else z.rights[|z.rights| - 1].node.left
    ensures t.left != null && Searching(dummy, LinkedRight(z), l, t.left, t)
  {
    var z' := LinkedRight(z);
    assert ZipProper(z', dummy) by { LinkedRightSame(z, dummy); }
    assert RightChain(dummy.left, z'.rights) by { ChainMore(dummy.left, z.rights, Aside(z.tree.right, z.tree.node), dummy); }
    assert Last(z'.rights, dummy) == t;
  }

  /** A rotation of the tree ahead leaves the trees set aside alone. */
  method TurnRight(dummy: Node, ghost l: Node, t0: Node, ghost r: Node, ghost z: Zip, ghost all: set<Node>) returns (t: Node)
    requires Searching(dummy, z, l, t0, r) && z.tree.left.Tree? && ZipNodes(z) <= all
    modifies z.tree.node, z.tree.left.node
    ensures Searching(dummy, z.(tree := RotatedRight(z.tree)), l, t, r)
    ensures ZipNodes(z.(tree := RotatedRight(z.tree))) == ZipNodes(z) && Flat(z.(tree := RotatedRight(z.tree))) == Flat(z)
  {
    RotatedRightSame(z.tree);
    assert z.tree.node in Nodes(z.tree) && z.tree.left.node in Nodes(z.tree.left);
    t := RotateRight(t0, z.tree);
    assert LeftChain(dummy.right, z.lefts) && RightChain(dummy.left, z.rights);
  }

  method TurnLeft(dummy: Node, ghost l: Node, t0: Node, ghost r: Node, ghost z: Zip, ghost all: set<Node>) returns (t: Node)
    requires Searching(dummy, z, l, t0, r) && z.tree.right.Tree? && ZipNodes(z) <= all
    modifies z.tree.node, z.tree.right.node
    ensures Searching(dummy, z.(tree := RotatedLeft(z.tree)), l, t, r)
    ensures ZipNodes(z.(tree := RotatedLeft(z.tree))) == ZipNodes(z) && Flat(z.(tree := RotatedLeft(z.tree))) == Flat(z)
  {
    RotatedLeftSame(z.tree);
    assert z.tree.node in Nodes(z.tree) && z.tree.right.node in Nodes(z.tree.right);
    t := RotateLeft(t0, z.tree);
    assert LeftChain(dummy.right, z.lefts) && RightChain(dummy.left, z.rights);
  }

  /* ---------- order ---------- */

  ghost predicate Sorted(q: seq<Node>) {
    forall i, j {:trigger q[i], q[j]} :: 0 <= i < j < |q| ==> q[i].item < q[j].item
  }

  /** All keys are below i, or all above it. */
  ghost predicate Below(q: seq<Node>, i: int) {
    forall k {:trigger q[k]} :: 0 <= k < |q| ==> q[k].item < i
  }

  ghost predicate Above(q: seq<Node>, i: int) {
    forall k {:trigger q[k]} :: 0 <= k < |q| ==> i < q[k].item
  }

  lemma SortedParts(a: seq<Node>, b: seq<Node>)
    requires Sorted(a + b)
    ensures Sorted(a) && Sorted(b)
    ensures b != [] ==> Below(a, b[0].item)
    ensures a != [] ==> Above(b, a[|a| - 1].item)
  {
    var q := a + b;
    assert forall k :: 0 <= k < |a| ==> q[k] == a[k];
    assert forall k :: 0 <= k < |b| ==> q[|a| + k] == b[k];
    forall i, j {:trigger b[i], b[j]} | 0 <= i < j < |b| ensures b[i].item < b[j].item {
      assert q[|a| + i].item < q[|a| + j].item;
    }
  }

  lemma SortedTree(t: Tree)
    requires t.Tree? && Sorted(InOrder(t))
    ensures Sorted(InOrder(t.left)) && Sorted(InOrder(t.right))
    ensures Below(InOrder(t.left), t.node.item) && Above(InOrder(t.right), t.node.item)
  {
    var a, n, b := InOrder(t.left), [t.node], InOrder(t.right);
    SortedParts(a + n, b);
    SortedParts(a, n);
  }

  /** What was set aside is on the right side of the key. */
  ghost predicate Parted(z: Zip, i: int) {
    Below(LeftFlat(z.lefts), i) && Above(RightFlat(z.rights), i)
  }

  lemma PartedLeft(z: Zip, i: int)
    requires z.tree.Tree? && Parted(z, i) && Sorted(Flat(z)) && z.tree.node.item < i
    ensures Parted(LinkedLeft(z), i)
  {
    SortedParts(LeftFlat(z.lefts) + InOrder(z.tree), RightFlat(z.rights));
    SortedParts(LeftFlat(z.lefts), InOrder(z.tree));
    SortedTree(z.tree);
    var s := LinkedLeft(z).lefts;
    assert s[..|s| - 1] == z.lefts;
    BelowMore(LeftFlat(z.lefts), InOrder(z.tree.left), z.tree.node, i);
  }

  lemma BelowMore(a: seq<Node>, b: seq<Node>, n: Node, i: int)
    requires Below(a, i) && Below(b, n.item) && n.item < i
    ensures Below(a + b + [n], i)
  {
  }

  lemma AboveMore(a: seq<Node>, b: seq<Node>, n: Node, i: int)
    requires Above(a, i) && Above(b, n.item) && i < n.item
    ensures Above([n] + b + a, i)
  {
  }

  lemma PartedRight(z: Zip, i: int)
    requires z.tree.Tree? && Parted(z, i) && Sorted(Flat(z)) && i < z.tree.node.item
    ensures Parted(LinkedRight(z), i)
  {
    SortedParts(LeftFlat(z.lefts) + InOrder(z.tree), RightFlat(z.rights));
    SortedParts(LeftFlat(z.lefts), InOrder(z.tree));
    SortedTree(z.tree);
    var s := LinkedRight(z).rights;
    assert s[..|s| - 1] == z.rights;
    AboveMore(RightFlat(z.rights), InOrder(z.tree.right), z.tree.node, i);
  }

  /* ---------- the search ---------- */

  ghost function Size(t: Tree): nat {
    if t.Leaf? then 0 else Size(t.left) + 1 + Size(t.right)
  }

  /* ---------- the same search on trees ---------- */

  /** A key below the left child's brings that child up. */
  ghost function ZigRight(z: Zip, i: int): (y: Zip)
    requires z.tree.Tree? && z.tree.left.Tree?
    ensures y.tree.Tree? && Size(y.tree) == Size(z.tree)
  {
    if i < z.tree.left.node.item then z.(tree := RotatedRight(z.tree)) else z
  }

  ghost function ZigLeft(z: Zip, i: int): (y: Zip)
    requires z.tree.Tree? && z.tree.right.Tree?
    ensures y.tree.Tree? && Size(y.tree) == Size(z.tree)
  {
    if z.tree.right.node.item < i then z.(tree := RotatedLeft(z.tree)) else z
  }

  /** Where the search for i ends: at the key, or where nothing is left on its side. */
  ghost function Searched(z: Zip, i: int): (y: Zip)
    requires z.tree.Tree?
    ensures y.tree.Tree?
    decreases Size(z.tree)
  {
    if i < z.tree.node.item then
      if z.tree.left.Leaf? then z
      else var y := ZigRight(z, i); if y.tree.left.Leaf? then y else Searched(LinkedRight(y), i)
    else if z.tree.node.item < i then
      if z.tree.right.Leaf? then z
      else var y := ZigLeft(z, i); if y.tree.right.Leaf? then y else Searched(LinkedLeft(y), i)
    else z
  }

  /** The top-down splay of a tree. */
  ghost function Splayed(s: Tree, i: int): Tree {
    if s.Leaf? then s else Assembled(Searched(Zip([], s, []), i))
  }

  /** The state kept by the whole search for i in a tree of nodes all with order q. */
  ghost predicate Splaying(z: Zip, i: int, q: seq<Node>, all: set<Node>) {
    Flat(z) == q && ZipNodes(z) == all && (Sorted(q) ==> Parted(z, i))
  }

  lemma InAll(z: Zip, all: set<Node>)
    requires z.tree.Tree? && ZipNodes(z) == all
    ensures z.tree.node in all
    ensures z.tree.left.Tree? ==> z.tree.left.node in all
    ensures z.tree.right.Tree? ==> z.tree.right.node in all
  {
    assert z.tree.left.Tree? ==> z.tree.left.node in Nodes(z.tree.left);
    assert z.tree.right.Tree? ==> z.tree.right.node in Nodes(z.tree.right);
  }

  /** The key is below the root: rotates when it is also below the left child. */
  method ZigZigRight(i: int, dummy: Node, ghost l: Node, t0: Node, ghost r: Node, ghost z: Zip, ghost q: seq<Node>, ghost all: set<Node>)
    returns (t: Node, ghost z': Zip)
    requires Searching(dummy, z, l, t0, r) && Splaying(z, i, q, all) && i < t0.item && z.tree.left.Tree?
    modifies all
    ensures Searching(dummy, z', l, t, r) && Splaying(z', i, q, all)
    ensures i < t.item && Size(z'.tree) == Size(z.tree) && (t.left == null <==> z'.tree.left.Leaf?) && z' == ZigRight(z, i)
  {
    t, z' := t0, z;
    assert Repr(t.left, z.tree.left);
    var y := t.left;
    if i < y.item {
      InAll(z, all);
      t := TurnRight(dummy, l, t, r, z, all);
      z' := z.(tree := RotatedRight(z.tree));
      assert Repr(t.left, z'.tree.left);
    }
  }

  /** One pass of the loop where the key is below the root. */
  method GoLeft(i: int, dummy: Node, ghost l: Node, t0: Node, r0: Node, ghost z: Zip, ghost q: seq<Node>, ghost all: set<Node>)
    returns (done: bool, t: Node, r: Node, ghost z': Zip)
    requires Searching(dummy, z, l, t0, r0) && Splaying(z, i, q, all) && i < t0.item
    modifies all, dummy
    ensures Searching(dummy, z', l, t, r) && Splaying(z', i, q, all)
    ensures done ==> z'.tree.left == Leaf && i < t.item
    ensures !done ==> Size(z'.tree) < Size(z.tree)
    ensures Searched(z, i) == if done then z' else Searched(z', i)
  {
    t, r, z' := t0, r0, z;
    assert Repr(t.left, z.tree.left);
    if t.left == null {
      return true, t, r, z';
    }
    t, z' := ZigZigRight(i, dummy, l, t, r, z, q, all);
    if t.left == null {
      return true, t, r, z';
    }
    r, t := PutRight(i, dummy, l, t, r, z', q, all);
    z' := LinkedRight(z');
    done := false;
  }

  /** The root and what is right of it is set aside. */
  method PutRight(i: int, dummy: Node, ghost l: Node, t0: Node, r0: Node, ghost z: Zip, ghost q: seq<Node>, ghost all: set<Node>)
    returns (r: Node, t: Node)
    requires Searching(dummy, z, l, t0, r0) && Splaying(z, i, q, all) && i < t0.item && z.tree.left.Tree?
    modifies all, dummy
    ensures Searching(dummy, LinkedRight(z), l, t, r) && Splaying(LinkedRight(z), i, q, all)
  {
    if Sorted(q) {
      PartedRight(z, i);
    }
    LinkedRightSame(z, dummy);
    Apart(dummy, z);
    LastIn(z.rights, dummy);
    r, t := LinkRight(dummy, r0, t0, z, l, all);
  }

  /** The key is above the root: rotates when it is also above the right child. */
  method ZigZigLeft(i: int, dummy: Node, ghost l: Node, t0: Node, ghost r: Node, ghost z: Zip, ghost q: seq<Node>, ghost all: set<Node>)
    returns (t: Node, ghost z': Zip)
    requires Searching(dummy, z, l, t0, r) && Splaying(z, i, q, all) && t0.item < i && z.tree.right.Tree?
    modifies all
    ensures Searching(dummy, z', l, t, r) && Splaying(z', i, q, all)
    ensures t.item < i && Size(z'.tree) == Size(z.tree) && (t.right == null <==> z'.tree.right.Leaf?) && z' == ZigLeft(z, i)
  {
    t, z' := t0, z;
    assert Repr(t.right, z.tree.right);
    var y := t.right;
    if y.item < i {
      InAll(z, all);
      t := TurnLeft(dummy, l, t, r, z, all);
      z' := z.(tree := RotatedLeft(z.tree));
      assert Repr(t.right, z'.tree.right);
    }
  }

  /** One pass of the loop where the key is above the root. */
  method GoRight(i: int, dummy: Node, l0: Node, t0: Node, ghost r: Node, ghost z: Zip, ghost q: seq<Node>, ghost all: set<Node>)
    returns (done: bool, t: Node, l: Node, ghost z': Zip)
    requires Searching(dummy, z, l0, t0, r) && Splaying(z, i, q, all) && t0.item < i
    modifies all, dummy
    ensures Searching(dummy, z', l, t, r) && Splaying(z', i, q, all)
    ensures done ==> z'.tree.right == Leaf && t.item < i
    ensures !done ==> Size(z'.tree) < Size(z.tree)
    ensures Searched(z, i) == if done then z' else Searched(z', i)
  {
    t, l, z' := t0, l0, z;
    assert Repr(t.right, z.tree.right);
    if t.right == null {
      return true, t, l, z';
    }
    t, z' := ZigZigLeft(i, dummy, l, t, r, z, q, all);
    if t.right == null {
      return true, t, l, z';
    }
    l, t := PutLeft(i, dummy, l, t, r, z', q, all);
    z' := LinkedLeft(z');
    done := false;
  }

  /** The root and what is left of it is set aside. */
  method PutLeft(i: int, dummy: Node, l0: Node, t0: Node, ghost r: Node, ghost z: Zip, ghost q: seq<Node>, ghost all: set<Node>)
    returns (l: Node, t: Node)
    requires Searching(dummy, z, l0, t0, r) && Splaying(z, i, q, all) && t0.item < i && z.tree.right.Tree?
    modifies all, dummy
    ensures Searching(dummy, LinkedLeft(z), l, t, r) && Splaying(LinkedLeft(z), i, q, all)
  {
    if Sorted(q) {
      PartedLeft(z, i);
    }
    LinkedLeftSame(z, dummy);
    Apart(dummy, z);
    LastIn(z.lefts, dummy);
    l, t := LinkLeft(dummy, l0, t0, z, r, all);
  }

  /* ---------- putting the parts together ---------- */

  lemma {:induction false} LeftClosedRepr(head: Node?, s: seq<Aside>, p: Node?, x: Tree)
    requires LeftChain(head, s) && Repr(p, x) && p == if s == [] then head else s[|s| - 1].node.right
    ensures Repr(head, LeftClosed(s, x))
  {
    if s != [] {
      var k := |s| - 1;
      LeftClosedRepr(head, s[..k], s[k].node, Tree(s[k].tree, s[k].node, x));
    }
  }

  lemma {:induction false} RightClosedRepr(head: Node?, s: seq<Aside>, p: Node?, x: Tree)
    requires RightChain(head, s) && Repr(p, x) && p == if s == [] then head else s[|s| - 1].node.left
    ensures Repr(head, RightClosed(s, x))
  {
    if s != [] {
      var k := |s| - 1;
      RightClosedRepr(head, s[..k], s[k].node, Tree(x, s[k].node, s[k].tree));
    }
  }

  lemma {:induction false} LeftClosedNodes(s: seq<Aside>, x: Tree)
    requires SideProper(s) && Proper(x) && SideNodes(s) !! Nodes(x)
    ensures Proper(LeftClosed(s, x)) && Nodes(LeftClosed(s, x)) == SideNodes(s) + Nodes(x)
  {
    if s != [] {
      var a := s[|s| - 1];
      LeftClosedNodes(s[..|s| - 1], Tree(a.tree, a.node, x));
    }
  }

  lemma {:induction false} RightClosedNodes(s: seq<Aside>, x: Tree)
    requires SideProper(s) && Proper(x) && SideNodes(s) !! Nodes(x)
    ensures Proper(RightClosed(s, x)) && Nodes(RightClosed(s, x)) == SideNodes(s) + Nodes(x)
  {
    if s != [] {
      var a := s[|s| - 1];
      RightClosedNodes(s[..|s| - 1], Tree(x, a.node, a.tree));
    }
  }

  lemma {:induction false} LeftClosedOrder(s: seq<Aside>, x: Tree)
    ensures InOrder(LeftClosed(s, x)) == LeftFlat(s) + InOrder(x)
  {
    if s != [] {
      var a := s[|s| - 1];
      LeftClosedOrder(s[..|s| - 1], Tree(a.tree, a.node, x));
    }
  }

  lemma {:induction false} RightClosedOrder(s: seq<Aside>, x: Tree)
    ensures InOrder(RightClosed(s, x)) == InOrder(x) + RightFlat(s)
  {
    if s != [] {
      var a := s[|s| - 1];
      RightClosedOrder(s[..|s| - 1], Tree(x, a.node, a.tree));
    }
  }

  ghost function Assembled(z: Zip): Tree
    requires z.tree.Tree?
  {
    Tree(LeftClosed(z.lefts, z.tree.left), z.tree.node, RightClosed(z.rights, z.tree.right))
  }

  lemma AssembledNodes(z: Zip, dummy: Node)
    requires ZipProper(z, dummy)
    ensures Proper(Assembled(z)) && Nodes(Assembled(z)) == ZipNodes(z)
  {
    LeftClosedNodes(z.lefts, z.tree.left);
    RightClosedNodes(z.rights, z.tree.right);
  }

  lemma AssembledOrder(z: Zip)
    requires z.tree.Tree?
    ensures InOrder(Assembled(z)) == Flat(z)
  {
    LeftClosedOrder(z.lefts, z.tree.left);
    RightClosedOrder(z.rights, z.tree.right);
    Regroup2(LeftFlat(z.lefts), InOrder(z.tree.left), [z.tree.node], InOrder(z.tree.right), RightFlat(z.rights));
  }

  lemma Regroup2(a: seq<Node>, b: seq<Node>, c: seq<Node>, d: seq<Node>, e: seq<Node>)
    ensures a + b + c + (d + e) == a + (b + c + d) + e
  {
  }

  method Assemble(dummy: Node, l: Node, t: Node, r: Node, ghost z: Zip, ghost all: set<Node>)
    requires Searching(dummy, z, l, t, r) && ZipNodes(z) <= all
    modifies all, dummy
    ensures Repr(t, Assembled(z))
  {
    Apart(dummy, z);
    LastIn(z.lefts, dummy);
    LastIn(z.rights, dummy);
    ghost var a, b := z.tree.left, z.tree.right;
    assert Repr(t.left, a) && Repr(t.right, b) && t == z.tree.node;
    assert t !in Nodes(a) && t !in Nodes(b) && l !in Nodes(a) && l !in Nodes(b) && r !in Nodes(a) && r !in Nodes(b);
    HookRight(dummy, l, t.left, z.lefts);
    assert Repr(t.left, a) && Repr(t.right, b) && RightChain(dummy.left, z.rights);
    HookBoth(dummy, l, t, r, z, all);
  }

  /** With the left tree closed, the right one is still apart from it. */
  lemma LeftDone(dummy: Node, l: Node, t: Node, r: Node, z: Zip)
    requires ZipProper(z, dummy) && LeftChain(dummy.right, z.lefts) && Repr(t.left, z.tree.left)
    requires t.left == (if z.lefts == [] then dummy.right else l.right) && l == Last(z.lefts, dummy) && r == Last(z.rights, dummy)
    ensures Repr(dummy.right, Assembled(z).left) && r !in Nodes(Assembled(z).left) && r !in Nodes(z.tree.right)
    ensures Nodes(Assembled(z).left) <= ZipNodes(z) && r != z.tree.node
  {
    Apart(dummy, z);
    LeftClosedRepr(dummy.right, z.lefts, t.left, z.tree.left);
    LeftClosedNodes(z.lefts, z.tree.left);
    LastIn(z.rights, dummy);
  }

  lemma RightDone(dummy: Node, t: Node, r: Node, z: Zip)
    requires ZipProper(z, dummy) && RightChain(dummy.left, z.rights) && Repr(t.right, z.tree.right)
    requires t.right == (if z.rights == [] then dummy.left else r.left) && r == Last(z.rights, dummy)
    ensures Repr(dummy.left, Assembled(z).right)
  {
    RightClosedRepr(dummy.left, z.rights, t.right, z.tree.right);
  }

  /** The second half, once the left tree is closed. */
  method HookBoth(dummy: Node, ghost l: Node, t: Node, r: Node, ghost z: Zip, ghost all: set<Node>)
    requires ZipProper(z, dummy) && t == z.tree.node && ZipNodes(z) <= all
    requires LeftChain(dummy.right, z.lefts) && t.left == (if z.lefts == [] then dummy.right else l.right) && l == Last(z.lefts, dummy)
    requires RightChain(dummy.left, z.rights) && r == Last(z.rights, dummy)
    requires Repr(t.left, z.tree.left) && Repr(t.right, z.tree.right)
    modifies all, dummy
    ensures Repr(t, Assembled(z))
  {
    ghost var s := Assembled(z);
    LeftDone(dummy, l, t, r, z);
    assert r in all || r == dummy by { LastIn(z.rights, dummy); }
    assert dummy !in SideNodes(z.rights) && dummy != t;
    HookLeft(dummy, r, t.right, z.rights);
    assert Repr(dummy.right, s.left) && Repr(t.right, z.tree.right);
    RightDone(dummy, t, r, z);
    assert Proper(s) by { AssembledNodes(z, dummy); }
    SetLinks(dummy, t, s);
  }

  method SetLinks(dummy: Node, t: Node, ghost s: Tree)
    requires s.Tree? && Proper(s) && t == s.node && Repr(dummy.right, s.left) && Repr(dummy.left, s.right) && dummy != t
    modifies t
    ensures Repr(t, s)
  {
    t.left := dummy.right;
    t.right := dummy.left;
    assert Repr(t.left, s.left) && Repr(t.right, s.right);
  }

  /** Why the search stops: the key is at the root, or nothing is left on its side. */
  ghost predicate Settled(z: Zip, i: int) {
    z.tree.Tree? && (
      || z.tree.node.item == i
      || (i < z.tree.node.item && z.tree.left.Leaf?)
      || (z.tree.node.item < i && z.tree.right.Leaf?))
  }

  /** The loop. */
  method Descend(i: int, dummy: Node, t0: Node, ghost s: Tree, ghost q: seq<Node>, ghost all: set<Node>)
    returns (l: Node, t: Node, r: Node, ghost z: Zip)
    requires Repr(t0, s) && Proper(s) && Nodes(s) == all && dummy !in all && q == InOrder(s)
    modifies all, dummy
    ensures Searching(dummy, z, l, t, r) && Splaying(z, i, q, all) && Settled(z, i)
    ensures s.Tree? && z == Searched(Zip([], s, []), i)
  {
    l, r, t := dummy, dummy, t0;
    z := Zip([], s, []);
    StartSearch(dummy, z, t0, q, all);
    while true
      invariant Searching(dummy, z, l, t, r) && Splaying(z, i, q, all)
      invariant s.Tree? && Searched(z, i) == Searched(Zip([], s, []), i)
      decreases Size(z.tree)
    {
      var done;
      if i < t.item {
        done, t, r, z := GoLeft(i, dummy, l, t, r, z, q, all);
        if done { break; }
      } else if i > t.item {
        done, t, l, z := GoRight(i, dummy, l, t, r, z, q, all);
        if done { break; }
      } else {
        break;
      }
    }
  }

  lemma SortedZip(z: Zip)
    requires z.tree.Tree? && Sorted(Flat(z))
    ensures Below(InOrder(z.tree.left), z.tree.node.item) && Above(InOrder(z.tree.right), z.tree.node.item)
  {
    SortedParts(LeftFlat(z.lefts) + InOrder(z.tree), RightFlat(z.rights));
    SortedParts(LeftFlat(z.lefts), InOrder(z.tree));
    SortedTree(z.tree);
  }

  lemma SettledSides(z: Zip, i: int, q: seq<Node>, all: set<Node>)
    requires Splaying(z, i, q, all) && Settled(z, i) && Sorted(q)
    ensures Below(InOrder(Assembled(z).left), i) && Above(InOrder(Assembled(z).right), i)
  {
    SortedZip(z);
    LeftClosedOrder(z.lefts, z.tree.left);
    BelowBoth(LeftFlat(z.lefts), InOrder(z.tree.left), i, z.tree.node.item);
    RightClosedOrder(z.rights, z.tree.right);
    AboveBoth(InOrder(z.tree.right), RightFlat(z.rights), i, z.tree.node.item);
  }

  lemma BelowBoth(a: seq<Node>, b: seq<Node>, i: int, k: int)
    requires Below(a, i) && Below(b, k) && (k <= i || b == [])
    ensures Below(a + b, i)
  {
  }

  lemma AboveBoth(a: seq<Node>, b: seq<Node>, i: int, k: int)
    requires Above(a, k) && Above(b, i) && (i <= k || a == [])
    ensures Above(a + b, i)
  {
  }

  /**
    ghw_splay: the nodes stay in the same order, and the new root parts them: on its left are keys
    below i and on its right keys above i.
   */
  method Splay(i: int, t0: Node?, ghost s: Tree, ghost all: set<Node>) returns (t: Node?, ghost s': Tree)
    requires Repr(t0, s) && Proper(s) && Nodes(s) == all
    modifies all
    ensures Repr(t, s') && Proper(s') && Nodes(s') == all && InOrder(s') == InOrder(s) && s' == Splayed(s, i)
    ensures s.Tree? ==> s'.Tree? && (Sorted(InOrder(s)) ==> Below(InOrder(s'.left), i) && Above(InOrder(s'.right), i))
  {
    if t0 == null {
      return null, s;
    }
    var dummy := new Node(0, 0, 0);
    var l, tt, r;
    ghost var z;
    l, tt, r, z := Descend(i, dummy, t0, s, InOrder(s), all);
    Assemble(dummy, l, tt, r, z, all);
    t, s' := tt, Assembled(z);
    Summary(z, i, dummy, InOrder(s), all);
  }

  lemma Summary(z: Zip, i: int, dummy: Node, q: seq<Node>, all: set<Node>)
    requires ZipProper(z, dummy) && Splaying(z, i, q, all) && Settled(z, i)
    ensures var s := Assembled(z); Proper(s) && Nodes(s) == all && InOrder(s) == q
    ensures Sorted(q) ==> Below(InOrder(Assembled(z).left), i) && Above(InOrder(Assembled(z).right), i)
  {
    AssembledNodes(z, dummy);
    AssembledOrder(z);
    if Sorted(q) {
      SettledSides(z, i, q, all);
    }
  }

  lemma StartSearch(dummy: Node, z: Zip, t: Node, q: seq<Node>, all: set<Node>)
    requires z.lefts == [] && z.rights == [] && Repr(t, z.tree) && Proper(z.tree) && Nodes(z.tree) == all && dummy !in all
    requires q == InOrder(z.tree)
    ensures Searching(dummy, z, dummy, t, dummy) && Flat(z) == q && ZipNodes(z) == all
  {
  }

  /** A parted tree has the key at its root if it has it at all. */
  lemma RootHasKey(s: Tree, i: int)
    requires s.Tree? && Below(InOrder(s.left), i) && Above(InOrder(s.right), i)
    ensures s.node.item == i <==> exists n :: n in InOrder(s) && n.item == i
  {
    var a, b := InOrder(s.left), InOrder(s.right);
    assert s.node in InOrder(s) by { assert InOrder(s)[|a|] == s.node; }
    forall n | n in InOrder(s) && n != s.node ensures n.item != i {
      assert n in a || n in b;
    }
  }

  /* ---------- insertion ---------- */

  datatype Payload = Payload(valOld: int, sym: int)

  /** What a tree stores, key by key. */
  ghost function Entries(q: seq<Node>): map<int, Payload> {
    if q == [] then map[] else
      var n := q[|q| - 1]; Entries(q[..|q| - 1])[n.item := Payload(n.valOld, n.sym)]
  }

  lemma {:induction false} EntriesInserted(a: seq<Node>, n: Node, c: seq<Node>)
    requires Sorted(a + [n] + c)
    ensures Entries(a + [n] + c) == Entries(a + c)[n.item := Payload(n.valOld, n.sym)]
  {
    var q := a + [n] + c;
    if c == [] {
      assert q[..|q| - 1] == a && a + c == a;
    } else {
      var c', x := c[..|c| - 1], c[|c| - 1];
      SortedParts(a + [n], c);
      assert q == (a + [n] + c') + [x];
      SortedParts(a + [n] + c', [x]);
      EntriesInserted(a, n, c');
      assert (a + c)[..|a + c| - 1] == a + c' && q[..|q| - 1] == a + [n] + c';
      assert x.item != n.item by { assert q[|a|] == n && q[|q| - 1] == x; }
    }
  }

  lemma {:induction false} EntriesOf(q: seq<Node>, n: Node)
    requires Sorted(q) && n in q
    ensures n.item in Entries(q) && Entries(q)[n.item] == Payload(n.valOld, n.sym)
  {
    var p, x := q[..|q| - 1], q[|q| - 1];
    assert q == p + [x];
    if n != x {
      SortedParts(p, [x]);
      EntriesOf(p, n);
      var j: nat :| j < |p| && q[j] == n;
      assert q[j].item < q[|p|].item;
    }
  }

  lemma {:induction false} EntriesFrom(q: seq<Node>, i: int) returns (n: Node)
    requires i in Entries(q)
    ensures n in q && n.item == i
  {
    n := q[|q| - 1];
    if n.item != i {
      n := EntriesFrom(q[..|q| - 1], i);
    }
  }

  lemma EntriesAt(q: seq<Node>, i: int)
    requires Sorted(q)
    ensures i in Entries(q) <==> exists n :: n in q && n.item == i
    ensures forall n :: n in q && n.item == i ==> i in Entries(q) && Entries(q)[i] == Payload(n.valOld, n.sym)
  {
    if i in Entries(q) {
      var n := EntriesFrom(q, i);
    }
    forall n | n in q && n.item == i ensures i in Entries(q) && Entries(q)[i] == Payload(n.valOld, n.sym) {
      EntriesOf(q, n);
    }
  }

  lemma SortedJoin(a: seq<Node>, n: Node, b: seq<Node>)
    requires Sorted(a) && Sorted(b) && Below(a, n.item) && Above(b, n.item)
    ensures Sorted(a + [n] + b)
  {
  }

  /** The new root and the splayed one. */
  ghost function Rooted(s: Tree, n: Node): Tree
    requires s.Tree? && s.node.item != n.item
  {
    if n.item < s.node.item then Tree(s.left, n, Tree(Leaf, s.node, s.right))
    else Tree(Tree(s.left, s.node, Leaf), n, s.right)
  }

  lemma RootedNodes(s: Tree, n: Node)
    requires s.Tree? && s.node.item != n.item && Proper(s) && n !in Nodes(s)
    ensures Proper(Rooted(s, n)) && Nodes(Rooted(s, n)) == Nodes(s) + {n}
  {
    if n.item < s.node.item {
      assert Nodes(Tree(Leaf, s.node, s.right)) == {s.node} + Nodes(s.right);
    } else {
      assert Nodes(Tree(s.left, s.node, Leaf)) == Nodes(s.left) + {s.node};
    }
  }

  lemma RootedOrder(s: Tree, n: Node)
    requires s.Tree? && s.node.item != n.item && Sorted(InOrder(s))
    requires Below(InOrder(s.left), n.item) && Above(InOrder(s.right), n.item)
    ensures Sorted(InOrder(Rooted(s, n)))
    ensures Entries(InOrder(Rooted(s, n))) == Entries(InOrder(s))[n.item := Payload(n.valOld, n.sym)]
  {
    RootedInOrder(s, n);
    if n.item < s.node.item {
      InsertedBefore(InOrder(s.left), s.node, InOrder(s.right), n);
    } else {
      InsertedAfter(InOrder(s.left), s.node, InOrder(s.right), n);
    }
  }

  lemma InsertedBefore(a: seq<Node>, m: Node, b: seq<Node>, n: Node)
    requires Sorted(a + [m] + b) && Below(a, n.item) && n.item < m.item && Above(b, n.item)
    ensures Sorted(a + [n] + ([m] + b)) && Entries(a + [n] + ([m] + b)) == Entries(a + [m] + b)[n.item := Payload(n.valOld, n.sym)]
  {
    assert a + ([m] + b) == a + [m] + b;
    OrderInserted(a, n, [m] + b);
  }

  lemma InsertedAfter(a: seq<Node>, m: Node, b: seq<Node>, n: Node)
    requires Sorted(a + [m] + b) && Below(a, n.item) && m.item < n.item && Above(b, n.item)
    ensures Sorted((a + [m]) + [n] + b) && Entries((a + [m]) + [n] + b) == Entries(a + [m] + b)[n.item := Payload(n.valOld, n.sym)]
  {
    OrderInserted(a + [m], n, b);
  }

  lemma RootedInOrder(s: Tree, n: Node)
    requires s.Tree? && s.node.item != n.item
    ensures var a, b, m := InOrder(s.left), InOrder(s.right), [s.node];
            InOrder(Rooted(s, n)) == if n.item < s.node.item then a + [n] + (m + b) else (a + m) + [n] + b
  {
    if n.item < s.node.item {
      assert InOrder(Tree(Leaf, s.node, s.right)) == [s.node] + InOrder(s.right);
    } else {
      assert InOrder(Tree(s.left, s.node, Leaf)) == InOrder(s.left) + [s.node];
    }
  }

  lemma OrderInserted(a: seq<Node>, n: Node, b: seq<Node>)
    requires Sorted(a + b) && Below(a, n.item) && Above(b, n.item)
    ensures Sorted(a + [n] + b) && Entries(a + [n] + b) == Entries(a + b)[n.item := Payload(n.valOld, n.sym)]
  {
    SortedParts(a, b);
    SortedJoin(a, n, b);
    EntriesInserted(a, n, b);
  }

  /**
    ghw_insert: the key is added with its payload unless it is already there; then the tree keeps
    the payload it has.
   */
  method Insert(i: int, t0: Node?, val: int, sym: int, ghost s: Tree, ghost all: set<Node>) returns (t: Node, ghost s': Tree)
    requires Repr(t0, s) && Proper(s) && Nodes(s) == all && Sorted(InOrder(s))
    modifies all
    ensures Repr(t, s') && Proper(s') && Sorted(InOrder(s')) && fresh(Nodes(s') - all)
    ensures var e := Entries(InOrder(s)); Entries(InOrder(s')) == if i in e then e else e[i := Payload(val, sym)]
  {
    var n := new Node(i, val, sym);
    if t0 == null {
      return n, Tree(Leaf, n, Leaf);
    }
    var t1;
    t1, s' := Splay(i, t0, s, all);
    EntriesAt(InOrder(s'), i);
    RootHasKey(s', i);
    t := t1;
    if i == t.item {
      return;
    }
    RootedNodes(s', n);
    RootedOrder(s', n);
    AddRoot(i, t, n, s');
    t, s' := n, Rooted(s', n);
  }

  method AddRoot(i: int, t: Node, n: Node, ghost s: Tree)
    requires Repr(t, s) && Proper(s) && n !in Nodes(s) && i == n.item != t.item && n.left == null && n.right == null
    modifies t, n
    ensures Repr(n, Rooted(s, n))
  {
    assert Repr(t.left, s.left) && Repr(t.right, s.right);
    if i < t.item {
      n.left := t.left;
      n.right := t;
      t.left := null;
      assert Repr(t, Tree(Leaf, t, s.right));
    } else {
      n.right := t.right;
      n.left := t;
      t.right := null;
      assert Repr(t, Tree(s.left, t, Leaf));
    }
  }
}
