/** The threaded external-leaf red-black tree (jrb): its operations on the node memory. */
module Jrb {
  import opened JrbStore
  import opened JrbColor
  import opened JrbEdit
  import opened JrbList
  import opened JrbState

  class Tree {
    const head: Node
    ghost var st: State

    ghost predicate CoupledAt(n: Node)
      requires n in st.mem
      reads this`st, n
    {
      && st.mem[n] == Link(n.left, n.root, n.flink, n.blink, n.parent)
      && n in st.red && st.red[n] == n.red
      && (n.internal ==> n in st.ext && st.ext[n] == Ends(n.lext, n.rext))
    }

    /** The values in st are those of the nodes' fields. */
    ghost predicate Coupled()
      reads this`st, st.mem.Keys
    {
      forall n {:trigger CoupledAt(n)} :: n in st.mem ==> CoupledAt(n)
    }

    ghost predicate Valid()
      reads this, st.mem.Keys
    {
      Coupled() && st.Framed(head, 0, 0) && st.Painted(head, head, head)
    }

    constructor ()
      ensures Valid() && st.leaves == [] && fresh(st.mem.Keys) && st.RootBlack(head, head)
    {
      head := new Node(false, 0, 0);
      new;
      st := State(map[head := Link(head.left, head.root, head.flink, head.blink, head.parent)],
                  map[head := head.red], map[], [], [], map[], map[]);
    }

    /* ---------- field writes ---------- */

    method SetFlink(n: Node, v: Node)
      requires Coupled() && n in st.mem
      modifies this`st, n`flink
      ensures Coupled() && st == old(st).(mem := old(st).mem[n := old(st).mem[n].(flink := v)])
    {
      n.flink := v;
      st := st.(mem := Put(st.mem, n, st.mem[n].(flink := v)));
      forall k {:trigger CoupledAt(k)} | k in st.mem ensures CoupledAt(k) { assert old(CoupledAt(k)); }
    }

    method SetBlink(n: Node, v: Node)
      requires Coupled() && n in st.mem
      modifies this`st, n`blink
      ensures Coupled() && st == old(st).(mem := old(st).mem[n := old(st).mem[n].(blink := v)])
    {
      n.blink := v;
      st := st.(mem := Put(st.mem, n, st.mem[n].(blink := v)));
      forall k {:trigger CoupledAt(k)} | k in st.mem ensures CoupledAt(k) { assert old(CoupledAt(k)); }
    }

    method SetParent(n: Node, v: Node)
      requires Coupled() && n in st.mem
      modifies this`st, n`parent
      ensures Coupled() && st == old(st).(mem := old(st).mem[n := old(st).mem[n].(parent := v)])
    {
      n.parent := v;
      st := st.(mem := Put(st.mem, n, st.mem[n].(parent := v)));
      forall k {:trigger CoupledAt(k)} | k in st.mem ensures CoupledAt(k) { assert old(CoupledAt(k)); }
    }

    method SetLeft(n: Node, b: bool)
      requires Coupled() && n in st.mem
      modifies this`st, n`left
      ensures Coupled() && st == old(st).(mem := old(st).mem[n := old(st).mem[n].(left := b)])
    {
      n.left := b;
      st := st.(mem := Put(st.mem, n, st.mem[n].(left := b)));
      forall k {:trigger CoupledAt(k)} | k in st.mem ensures CoupledAt(k) { assert old(CoupledAt(k)); }
    }

    method SetRoot(n: Node, b: bool)
      requires Coupled() && n in st.mem
      modifies this`st, n`root
      ensures Coupled() && st == old(st).(mem := old(st).mem[n := old(st).mem[n].(root := b)])
    {
      n.root := b;
      st := st.(mem := Put(st.mem, n, st.mem[n].(root := b)));
      forall k {:trigger CoupledAt(k)} | k in st.mem ensures CoupledAt(k) { assert old(CoupledAt(k)); }
    }

    method SetLext(n: Node, v: Node)
      requires Coupled() && n in st.mem && n.internal && n in st.ext
      modifies this`st, n`lext
      ensures Coupled() && st == old(st).(ext := old(st).ext[n := old(st).ext[n].(lext := v)])
    {
      n.lext := v;
      st := st.(ext := Put(st.ext, n, st.ext[n].(lext := v)));
      forall k {:trigger CoupledAt(k)} | k in st.mem ensures CoupledAt(k) { assert old(CoupledAt(k)); }
    }

    method SetRext(n: Node, v: Node)
      requires Coupled() && n in st.mem && n.internal && n in st.ext
      modifies this`st, n`rext
      ensures Coupled() && st == old(st).(ext := old(st).ext[n := old(st).ext[n].(rext := v)])
    {
      n.rext := v;
      st := st.(ext := Put(st.ext, n, st.ext[n].(rext := v)));
      forall k {:trigger CoupledAt(k)} | k in st.mem ensures CoupledAt(k) { assert old(CoupledAt(k)); }
    }

    /** setred / setblack */
    method Paint(n: Node, b: bool)
      requires Coupled() && n in st.mem
      modifies this`st, n`red
      ensures Coupled() && st == old(st).(red := old(st).red[n := b])
    {
      n.red := b;
      st := st.(red := Put(st.red, n, b));
      forall k {:trigger CoupledAt(k)} | k in st.mem ensures CoupledAt(k) { assert old(CoupledAt(k)); }
    }

    ghost method SetHeights(h: Heights)
      requires Coupled()
      modifies this`st
      ensures Coupled() && st == old(st).(bh := h)
    {
      st := st.(bh := h);
      forall k {:trigger CoupledAt(k)} | k in st.mem ensures CoupledAt(k) { assert old(CoupledAt(k)); }
    }

    ghost method SetRanges(g: Ranges)
      requires Coupled()
      modifies this`st
      ensures Coupled() && st == old(st).(rng := g)
    {
      st := st.(rng := g);
      forall k {:trigger CoupledAt(k)} | k in st.mem ensures CoupledAt(k) { assert old(CoupledAt(k)); }
    }

    /** The same nodes hold the same entries, and a black root has not become red. */
    ghost predicate Kept(s: State)
      reads this`st
    {
      && st.mem.Keys == s.mem.Keys && st.leaves == s.leaves && st.ext == s.ext
      && (s.RootBlack(head, head) ==> st.RootBlack(head, head))
    }

    /** Only links and ranges may differ. */
    ghost predicate Same(s: State)
      reads this`st
    {
      st.mem.Keys == s.mem.Keys && st == s.(mem := st.mem, rng := st.rng)
    }

    /* ---------- rotation ---------- */

    /** First pointer writes of single_rotate. */
    method RotateLower(y: Node, l: bool) returns (x: Node)
      requires Coupled() && Fits(st.mem, y, l) && Distinct(st.mem, head, y, l)
      modifies this`st, st.mem.Keys
      ensures Coupled() && st == old(st).(mem := LowerSteps(old(st).mem, y, l))
      ensures x == old(st).mem[y].Kid(l)
    {
      assert CoupledAt(y) && CoupledAt(st.mem[y].Kid(l));
      if l {
        x := y.flink;
        SetFlink(y, x.blink);
        assert CoupledAt(y);
        SetLeft(y.flink, true);
        SetParent(y.flink, y);
        SetBlink(x, y);
        SetLeft(y, false);
      } else {
        x := y.blink;
        SetBlink(y, x.flink);
        assert CoupledAt(y);
        SetLeft(y.blink, false);
        SetParent(y.blink, y);
        SetFlink(x, y);
        SetLeft(y, true);
      }
    }

    /** Last pointer writes of single_rotate. */
    method RotateUpper(y: Node, x: Node, yp: Node, ir: bool, rl: bool)
      requires Coupled() && y in st.mem && x in st.mem && yp in st.mem
      modifies this`st, st.mem.Keys
      ensures Coupled() && st == old(st).(mem := UpperSteps(old(st).mem, y, x, yp, ir, rl))
    {
      SetParent(x, yp);
      SetParent(y, x);
      if ir {
        MoveRoot(y, x, yp);
      } else {
        HookKid(yp, x, rl);
      }
    }

    /** x takes the place of y at the root. */
    method MoveRoot(y: Node, x: Node, p: Node)
      requires Coupled() && y in st.mem && x in st.mem && p in st.mem
      modifies this`st, st.mem.Keys
      ensures Coupled()
      ensures var m1 := Put(old(st).mem, p, old(st).mem[p].(parent := x));
              var m2 := Put(m1, y, m1[y].(root := false));
              st == old(st).(mem := Put(m2, x, m2[x].(root := true)))
    {
      SetParent(p, x);
      SetRoot(y, false);
      SetRoot(x, true);
    }

    /** x becomes the left or right child of p. */
    method HookKid(p: Node, x: Node, l: bool)
      requires Coupled() && x in st.mem && p in st.mem
      modifies this`st, st.mem.Keys
      ensures Coupled()
      ensures var m1 := Put(old(st).mem, p, old(st).mem[p].SetKid(l, x));
              st == old(st).(mem := Put(m1, x, m1[x].(left := l)))
    {
      if l {
        SetFlink(p, x);
        SetLeft(x, true);
      } else {
        SetBlink(p, x);
        SetLeft(x, false);
      }
    }

    /** Rotates y's child on side l above y. */
    method SingleRotate(y: Node, l: bool, ghost gl: int, ghost gr: int)
      requires Coupled() && st.Framed(head, gl, gr)
      requires y in st.mem && y.internal && st.mem[y].Kid(l).internal
      modifies this`st, st.mem.Keys
      ensures Coupled() && st.Framed(head, gl, gr)
      ensures Fits(old(st).mem, y, l) && Distinct(old(st).mem, head, y, l)
      ensures y in old(st).rng && old(st).mem[y].Kid(l) in old(st).rng
      ensures st == old(st).(mem := Rotate(old(st).mem, y, l), rng := RotateRanges(old(st).mem, old(st).rng, y, l))
      ensures Risen(old(st), st, head, y, old(st).mem[y].Kid(l))
    {
      ghost var s := st;
      RotateFits(s.mem, head, s.rng, s.leaves, s.gaps, y, l);
      RotateStepsAre(s.mem, head, y, l);
      assert CoupledAt(y);
      var ir, yp, rl := y.root, y.parent, y.left;
      var x := RotateLower(y, l);
      RotateUpper(y, x, yp, ir, rl);
      SetRanges(RotateRanges(s.mem, s.rng, y, l));
      RotateShape(s.mem, head, s.rng, s.leaves, s.gaps, y, l);
      RotateListed(s.mem, head, s.rng, s.leaves, s.gaps, y, l);
      RotateCached(s.ext, s.mem, head, s.rng, s.leaves, gl, gr, y, l);
      RotateRoot(s.mem, head, y, l);
    }

    /** Rotation that will exchange the colours of a black node y and its red child x. */
    method RotateSwap(y: Node, l: bool, ghost x: Node, ghost z: Node, ghost r: Node, ghost gl: int, ghost gr: int)
      requires Coupled() && st.Framed(head, gl, gr) && st.Painted(head, z, r)
      requires y in st.mem && y != head && y.internal && st.mem[y].Kid(l) == x && x.internal && x in st.mem
      requires y in st.red && x in st.red && st.mem[y].Kid(!l) in st.red
      requires !st.red[y] && st.red[x] && !st.red[st.mem[y].Kid(!l)]
      requires z != y && z != x
      requires r == head || r == st.mem[x].Kid(l)
      modifies this`st, st.mem.Keys
      ensures Coupled() && st.Framed(head, gl, gr)
      ensures Same(old(st)) && Risen(old(st), st, head, y, x)
      ensures y in st.bh && Colored(st.mem, head, st.red[x := false][y := true], st.bh[x := st.bh[y]][y := st.bh[y] - 1], z, head)
      ensures st.mem[y].Kid(!l) == old(st).mem[y].Kid(!l) && st.mem[y].Kid(l) == old(st).mem[x].Kid(!l)
      ensures st.mem[x].Kid(l) == old(st).mem[x].Kid(l) && st.mem[x].Kid(!l) == y
    {
      ghost var s := st;
      SingleRotate(y, l, gl, gr);
      TopAfter(s.mem, head, y, l);
      KnownHolds(s.mem, head, s.red, s.bh, z, r, y, l);
      SwapColored(s.mem, head, s.red, s.bh, y, l, z, r);
    }

    /** The colour writes after such a rotation. */
    method SwapPaint(x: Node, y: Node, ghost z: Node)
      requires Coupled() && x in st.mem && y in st.mem && y in st.bh
      requires Colored(st.mem, head, st.red[x := false][y := true], st.bh[x := st.bh[y]][y := st.bh[y] - 1], z, head)
      modifies this`st, x`red, y`red
      ensures Coupled() && st == old(st).(red := st.red, bh := st.bh) && st.Painted(head, z, head)
      ensures st.red == old(st).red[x := false][y := true]
    {
      SetHeights(Put(Put(st.bh, x, st.bh[y]), y, st.bh[y] - 1));
      Paint(x, false);
      Paint(y, true);
    }

    /** Insertion repair, n and p on the same side. */
    method RecolorOuter(n: Node, p: Node, gp: Node, ghost gl: int, ghost gr: int)
      requires Coupled() && st.Framed(head, gl, gr) && st.Painted(head, head, n)
      requires gp in st.mem && gp != head && gp.internal && p in st.mem && n in st.mem
      requires st.mem[gp].Kid(n.left) == p && p.internal && st.mem[p].Kid(n.left) == n
      requires gp in st.red && p in st.red && st.red[p] && !st.red[gp]
      requires st.mem[gp].Kid(!n.left) in st.red && !st.red[st.mem[gp].Kid(!n.left)]
      modifies this`st, st.mem.Keys
      ensures Coupled() && st.Framed(head, gl, gr) && st.Painted(head, head, head)
      ensures Kept(old(st))
    {
      RotateSwap(gp, n.left, p, head, n, gl, gr);
      SwapPaint(p, gp, head);
      SwapRoot(old(st), st, head, gp, p, gp);
    }

    /** First rotation of the zig-zag case: the red child x rises above the red node y, below b. */
    method RotateRed(y: Node, l: bool, ghost x: Node, ghost b: Node, ghost gl: int, ghost gr: int)
      requires Coupled() && st.Framed(head, gl, gr) && st.Painted(head, head, x)
      requires y in st.mem && y != head && y.internal && st.mem[y].Kid(l) == x && x.internal && x in st.mem
      requires y in st.red && x in st.red && st.red[y] && st.red[x]
      requires b in st.mem && b != head && b.internal && st.mem[b].Kid(!l) == y
      modifies this`st, st.mem.Keys
      ensures Coupled() && st.Framed(head, gl, gr) && st.Painted(head, head, y) && Same(old(st)) && Risen(old(st), st, head, y, x)
      ensures st.mem[b].Kid(!l) == x && st.mem[b].Kid(l) == old(st).mem[b].Kid(l)
      ensures st.mem[x].Kid(!l) == y && x.left == !l
    {
      ghost var s := st;
      assert EdgeAt(s.mem, head, b, !l);
      SpanLess(s.mem, head, s.rng, s.leaves, s.gaps, b, !l);
      SpanLess(s.mem, head, s.rng, s.leaves, s.gaps, y, l);
      SingleRotate(y, l, gl, gr);
      KnownHolds(s.mem, head, s.red, s.bh, head, x, y, l);
      RedColored(s.mem, head, s.red, s.bh, y, l);
      KidAfter(s.mem, head, y, l, b, l);
      KidAfter(s.mem, head, y, l, b, !l);
      TopAfter(s.mem, head, y, l);
      assert EdgeAt(st.mem, head, b, !l) && CoupledAt(x);
    }

    /** Insertion repair, n and p on different sides. */
    method RecolorInner(n: Node, p: Node, gp: Node, ghost gl: int, ghost gr: int)
      requires Coupled() && st.Framed(head, gl, gr) && st.Painted(head, head, n)
      requires gp in st.mem && gp != head && gp.internal && p in st.mem && p != head && n in st.mem
      requires st.mem[gp].Kid(!n.left) == p && p.internal && st.mem[p].Kid(n.left) == n && n.internal
      requires gp in st.red && p in st.red && n in st.red && st.red[p] && st.red[n] && !st.red[gp]
      requires st.mem[gp].Kid(n.left) in st.red && !st.red[st.mem[gp].Kid(n.left)]
      modifies this`st, st.mem.Keys
      ensures Coupled() && st.Framed(head, gl, gr) && st.Painted(head, head, head)
      ensures Kept(old(st))
    {
      KidNotRoot(st.mem, head, gp, !n.left);
      RotateRed(p, n.left, n, gp, gl, gr);
      RotateSwap(gp, n.left, n, head, p, gl, gr);
      SwapPaint(n, gp, head);
      SwapRoot(old(st), st, head, gp, n, gp);
    }

    /** Insertion repair below a red uncle. */
    method RecolorUncle(p: Node, gp: Node, s: Node, ghost l: bool, ghost n: Node)
      requires Coupled() && Linked(st.mem, head) && st.Painted(head, head, n)
      requires gp in st.mem && gp != head && gp.internal && st.mem[gp].Kid(l) == p && st.mem[gp].Kid(!l) == s
      requires n in st.mem && st.mem[n].parent == p && n != p && n != s && n != gp
      requires p in st.red && s in st.red && gp in st.red && st.red[p] && st.red[s]
      modifies this`st, st.mem.Keys
      ensures Coupled() && st == old(st).(red := st.red, bh := st.bh) && st.Painted(head, head, gp)
      ensures st.red == old(st).red[p := false][gp := true][s := false] && st.red[gp]
      ensures old(st).RootBlack(head, head) ==> st.RootBlack(head, gp)
    {
      assert EdgeAt(st.mem, head, gp, l) && EdgeAt(st.mem, head, gp, !l);
      assert ColorAt(st.mem, st.red, st.bh, head, n, p) && ColorAt(st.mem, st.red, st.bh, head, n, s);
      UncleColored(st.mem, head, st.red, st.bh, gp, l, n);
      SetHeights(Put(Put(st.bh, p, st.bh[p] + 1), s, st.bh[s] + 1));
      PaintFamily(p, gp, s);
      UncleRoot(old(st), st, head, p, gp, s);
    }

    method PaintFamily(p: Node, gp: Node, s: Node)
      requires Coupled() && p in st.mem && gp in st.mem && s in st.mem
      modifies this`st, p`red, gp`red, s`red
      ensures Coupled() && st == old(st).(red := old(st).red[p := false][gp := true][s := false])
    {
      Paint(p, false);
      Paint(gp, true);
      Paint(s, false);
    }

    /** Blackening the root. */
    method PaintRoot(t: Node, ghost n: Node)
      requires Coupled() && Linked(st.mem, head) && st.Painted(head, head, n)
      requires t in st.mem && t != head && st.mem[t].root && t in st.red && st.red[t]
      requires n == t || (n in st.mem && st.mem[n].parent == t)
      modifies this`st, t`red
      ensures Coupled() && st == old(st).(red := st.red, bh := st.bh) && st.Painted(head, head, head)
      ensures st.red == old(st).red[t := false]
    {
      assert ColorAt(st.mem, st.red, st.bh, head, n, t);
      BlackRoot(st.mem, head, st.red, st.bh, n, t);
      SetHeights(Put(st.bh, t, st.bh[t] + 1));
      Paint(t, false);
    }

    /** recolor: restores the colours after the red node n0 was added. */
    method Recolor(n0: Node, ghost gl: int, ghost gr: int)
      requires Coupled() && st.Framed(head, gl, gr) && st.Painted(head, head, n0)
      requires n0 in st.mem && n0 != head && n0.internal && n0 in st.red && st.red[n0]
      modifies this`st, st.mem.Keys
      ensures Coupled() && st.Framed(head, gl, gr) && st.Painted(head, head, head)
      ensures Kept(old(st)) && (old(st).RootBlack(head, n0) ==> st.RootBlack(head, head))
    {
      var n, p, gp := n0, n0, n0;
      var done := false;
      while !done
        invariant Coupled() && st.Framed(head, gl, gr) && st.Painted(head, head, n)
        invariant st == old(st).(red := st.red, bh := st.bh)
        invariant n in st.mem && n != head && n.internal && n in st.red && st.red[n]
        invariant old(st).RootBlack(head, n0) ==> st.RootBlack(head, n)
        invariant done ==> BelowBlack(n, p, gp)
        decreases !done, |st.leaves| - if n in st.rng then Span(st.rng, n) else 0
      {
        assert CoupledAt(n) && UpAt(st.mem, head, n);
        if n.root {
          PaintRoot(n, n);
          return;
        }
        assert old(st).RootBlack(head, n0) ==> st.RootBlack(head, head);
        ParentOf(st.mem, head, st.rng, st.leaves, st.gaps, n);
        p := n.parent;
        assert CoupledAt(p);
        if !p.red {
          NoException(st.mem, head, st.red, st.bh, head, n);
          return;
        }
        if p.root {
          assert UpAt(st.mem, head, p);
          PaintRoot(p, n);
          return;
        }
        ParentOf(st.mem, head, st.rng, st.leaves, st.gaps, p);
        gp := p.parent;
        assert CoupledAt(gp);
        var s := if p.left then gp.blink else gp.flink;
        assert EdgeAt(st.mem, head, gp, p.left) && EdgeAt(st.mem, head, gp, !p.left);
        assert CoupledAt(s);
        assert ColorAt(st.mem, st.red, st.bh, head, n, gp);
        if s.red {
          RecolorUncle(p, gp, s, p.left, n);
          n := gp;
        } else {
          done := true;
        }
      }
      KidNotRoot(st.mem, head, p, n.left);
      if n.left == p.left {
        RecolorOuter(n, p, gp, gl, gr);
      } else {
        RecolorInner(n, p, gp, gl, gr);
      }
    }

    /** n below its red parent p below its black parent gp, whose other child is black. */
    ghost predicate BelowBlack(n: Node, p: Node, gp: Node)
      reads this`st, n, p
    {
      && gp in st.mem && gp != head && gp.internal && p in st.mem && p != head && p.internal && n in st.mem
      && st.mem[gp].Kid(p.left) == p && st.mem[p].Kid(n.left) == n
      && gp in st.red && p in st.red && st.red[p] && !st.red[gp]
      && st.mem[gp].Kid(!p.left) in st.red && !st.red[st.mem[gp].Kid(!p.left)]
    }

    /** insert: links the new leaf q into the list in front of u. */
    method InsertList(q: Node, u: Node)
      requires Coupled() && q !in st.mem && u in st.mem && st.mem[u].blink in st.mem
      modifies this`st, st.mem.Keys, q`flink, q`blink
      ensures Coupled() && st == old(st).(mem := LinkIn(old(st).mem, u, old(st).mem[u].blink, q))
      ensures q.flink == u && q.blink == old(st).mem[u].blink
    {
      assert CoupledAt(u);
      var last := u.blink;
      SetBlink(u, q);
      SetFlink(last, q);
      q.blink := last;
      q.flink := u;
      forall k {:trigger CoupledAt(k)} | k in st.mem ensures CoupledAt(k) { }
    }

    /** A new node joins the live nodes. */
    ghost method Adopt(n: Node)
      requires Coupled() && n !in st.mem
      modifies this`st
      ensures Coupled()
      ensures st == old(st).(mem := old(st).mem[n := Link(n.left, n.root, n.flink, n.blink, n.parent)],
                             red := old(st).red[n := n.red],
                             ext := if n.internal then old(st).ext[n := Ends(n.lext, n.rext)] else old(st).ext)
    {
      ghost var s := st;
      st := Adopted(s, n, Link(n.left, n.root, n.flink, n.blink, n.parent), n.red, Ends(n.lext, n.rext));
      forall k {:trigger CoupledAt(k)} | k in st.mem ensures CoupledAt(k) {
        if k != n {
          assert old(CoupledAt(k));
          AdoptedKeeps(s, n, Link(n.left, n.root, n.flink, n.blink, n.parent), n.red, Ends(n.lext, n.rext), k);
        }
      }
    }

    /** mk_new_int, first part: the node. */
    method NewInternal(l: Node, r: Node, p: Node) returns (w: Node)
      requires Coupled()
      modifies this`st
      ensures Coupled() && fresh(w) && w.internal && w !in old(st).mem
      ensures st == old(st).(mem := old(st).mem[w := Link(false, false, l, r, p)],
                             red := old(st).red[w := true], ext := old(st).ext[w := Ends(l, r)])
    {
      w := new Node(true, 0, 0);
      w.flink, w.blink, w.parent := l, r, p;
      w.lext, w.rext := l, r;
      forall k {:trigger CoupledAt(k)} | k in st.mem ensures CoupledAt(k) { assert old(CoupledAt(k)); }
      Adopt(w);
    }

    /** mk_new_int, second part: the links to it. */
    method HookInternal(l: Node, r: Node, p: Node, il: bool, w: Node, ghost m: Links)
      requires Coupled() && l in m && r in m && p in m && st.mem == m[w := Link(false, false, l, r, p)]
      modifies this`st, st.mem.Keys
      ensures Coupled() && st == old(st).(mem := MakeSteps(m, head, l, r, p, il, w))
    {
      SetParent(l, w);
      SetParent(r, w);
      SetLeft(l, true);
      SetLeft(r, false);
      if p == head {
        SetParent(p, w);
        SetRoot(w, true);
      } else if il {
        SetLeft(w, true);
        SetFlink(p, w);
      } else {
        SetLeft(w, false);
        SetBlink(p, w);
      }
    }

    /** A new red internal node over l and r takes their place below p. */
    method MakeInternal(l: Node, r: Node, p: Node, il: bool) returns (w: Node)
      requires Coupled() && l in st.mem && r in st.mem && p in st.mem
      modifies this`st, st.mem.Keys
      ensures Coupled() && fresh(w) && w.internal && w !in old(st).mem
      ensures st == old(st).(mem := MakeSteps(old(st).mem, head, l, r, p, il, w),
                             red := old(st).red[w := true], ext := old(st).ext[w := Ends(l, r)])
    {
      ghost var m := st.mem;
      w := NewInternal(l, r, p);
      HookInternal(l, r, p, il, w, m);
    }

    /** The same fields, seen with other entries, ranges and heights. */
    ghost method Regard(s: State)
      requires Coupled() && s.mem == st.mem && s.red == st.red && s.ext == st.ext
      modifies this`st
      ensures Coupled() && st == s
    {
      st := s;
      forall k {:trigger CoupledAt(k)} | k in st.mem ensures CoupledAt(k) { assert old(CoupledAt(k)); }
    }

    /** A new leaf q is linked into the list next to leaf k, and leaf k is no longer the root. */
    method LinkLeaf(q: Node, t: Node, u: Node, qLeft: bool, ghost k: int)
      requires Valid() && 0 <= k < |st.leaves| && t == st.leaves[k]
      requires q !in st.mem && !q.internal && !q.left && !q.root && !q.red && q.parent == q
      requires u == if qLeft then t else At(head, st.leaves, k + 1)
      modifies this`st, st.mem.Keys, q
      ensures var kq := if qLeft then k else k + 1;
              At(head, old(st).leaves, kq) in old(st).mem && At(head, old(st).leaves, kq - 1) in old(st).mem
      ensures t in old(st).mem
      ensures Coupled() && st == old(st).(mem := ReadyState(old(st), head, k, q, qLeft), red := old(st).red[q := false])
    {
      ghost var s := st;
      ghost var kq := if qLeft then k else k + 1;
      InsertPoint(s, head, k, qLeft);
      InsertList(q, u);
      assert st.mem == ListedIn(s, head, kq, q);
      Adopt(q);
      assert st.mem == Put(ListedIn(s, head, kq, q), q, LeafLink(s, head, kq, q));
      SetRoot(t, false);
    }

    /** A new leaf q next to leaf k, up to mk_new_int's recolor. */
    method SpliceLeaf(q: Node, t: Node, u: Node, qLeft: bool, ghost k: int) returns (w: Node)
      requires Valid() && 0 <= k < |st.leaves| && t == st.leaves[k]
      requires q !in st.mem && !q.internal && !q.left && !q.root && !q.red && q.parent == q
      requires u == if qLeft then t else At(head, st.leaves, k + 1)
      modifies this`st, st.mem.Keys, q
      ensures Coupled() && fresh(w) && Insertable(old(st), head, k, q, w)
      ensures st == InsertState(old(st), head, k, q, w, qLeft)
    {
      ghost var s := st;
      LeafFacts(s, head, k);
      assert CoupledAt(t);
      var p, il := t.parent, t.left;
      LinkLeaf(q, t, u, qLeft, k);
      var lf, rt := if qLeft then q else t, if qLeft then t else q;
      w := MakeInternal(lf, rt, p, il);
      InsertStepsAre(s, head, k, q, w, qLeft);
      Regard(InsertState(s, head, k, q, w, qLeft));
    }

    /** lprev: the internal node at the gap left of n's leaves, or the head. */
    method Lprev(n: Node) returns (r: Node)
      requires Coupled() && Shape(st.mem, head, st.rng, st.leaves, st.gaps) && n in st.mem
      ensures r in st.mem && (n == head ==> r == head)
      ensures n != head ==> n in st.rng
      ensures n != head ==> if r == head then st.rng[n].lo == 0 else r.internal && r in st.rng && st.rng[r].sp == st.rng[n].lo
    {
      if n == head {
        return head;
      }
      var c := n;
      assert CoupledAt(c) && RangeAt(st.mem, st.rng, st.leaves, st.gaps, c);
      while !c.root
        invariant c in st.mem && c != head && c in st.rng && st.rng[c].lo == st.rng[n].lo
        decreases |st.leaves| - Span(st.rng, c)
      {
        assert CoupledAt(c);
        ParentOf(st.mem, head, st.rng, st.leaves, st.gaps, c);
        if !c.left {
          return c.parent;
        }
        c := c.parent;
      }
      assert CoupledAt(c) && UpAt(st.mem, head, c) && RangeAt(st.mem, st.rng, st.leaves, st.gaps, c);
      return c.parent;
    }

    /** rprev: the internal node at the gap right of n's leaves, or the head. */
    method Rprev(n: Node) returns (r: Node)
      requires Coupled() && Shape(st.mem, head, st.rng, st.leaves, st.gaps) && n in st.mem
      ensures r in st.mem && (n == head ==> r == head)
      ensures n != head ==> n in st.rng
      ensures n != head ==> if r == head then st.rng[n].hi == |st.leaves| else r.internal && r in st.rng && st.rng[r].sp == st.rng[n].hi
    {
      if n == head {
        return head;
      }
      var c := n;
      assert CoupledAt(c) && RangeAt(st.mem, st.rng, st.leaves, st.gaps, c);
      while !c.root
        invariant c in st.mem && c != head && c in st.rng && st.rng[c].hi == st.rng[n].hi
        decreases |st.leaves| - Span(st.rng, c)
      {
        assert CoupledAt(c);
        ParentOf(st.mem, head, st.rng, st.leaves, st.gaps, c);
        if c.left {
          return c.parent;
        }
        c := c.parent;
      }
      assert CoupledAt(c) && UpAt(st.mem, head, c) && RangeAt(st.mem, st.rng, st.leaves, st.gaps, c);
      return c.parent;
    }

    /** The node in front of n's leaves learns that they now begin with v. */
    method FixRext(n: Node, v: Node, ghost gl: int, ghost gr: int)
      requires Coupled() && st.Framed(head, gl, gr) && n in st.mem && n != head
      requires n in st.rng && 0 <= st.rng[n].lo < |st.leaves| && v == st.leaves[st.rng[n].lo]
      modifies this`st, st.mem.Keys
      ensures Coupled() && st == old(st).(ext := st.ext)
      ensures st.Framed(head, gl, if st.rng[n].lo == gr then 0 else gr)
    {
      var p := Lprev(n);
      if p != head {
        SetRextOf(p, v, gl, gr);
      }
    }

    method SetRextOf(p: Node, v: Node, ghost gl: int, ghost gr: int)
      requires Coupled() && st.Framed(head, gl, gr) && p in st.mem && p != head && p.internal
      requires p in st.rng && 0 <= st.rng[p].sp < |st.leaves| && v == st.leaves[st.rng[p].sp]
      modifies this`st, st.mem.Keys
      ensures Coupled() && st == old(st).(ext := st.ext)
      ensures st.Framed(head, gl, if st.rng[p].sp == gr then 0 else gr)
    {
      JrbList.SetRext(st.ext, st.mem, head, st.rng, st.leaves, st.gaps, gl, gr, p);
      SetRext(p, v);
    }

    /** The node behind n's leaves learns that they now end with v. */
    method FixLext(n: Node, v: Node, ghost gl: int, ghost gr: int)
      requires Coupled() && st.Framed(head, gl, gr) && n in st.mem && n != head
      requires n in st.rng && 0 < st.rng[n].hi <= |st.leaves| && v == st.leaves[st.rng[n].hi - 1]
      modifies this`st, st.mem.Keys
      ensures Coupled() && st == old(st).(ext := st.ext)
      ensures st.Framed(head, if st.rng[n].hi == gl then 0 else gl, gr)
    {
      var p := Rprev(n);
      if p != head {
        SetLextOf(p, v, gl, gr);
      } else {
        EndGaps(st.ext, st.mem, st.rng, st.leaves, gl, gr);
      }
    }

    method SetLextOf(p: Node, v: Node, ghost gl: int, ghost gr: int)
      requires Coupled() && st.Framed(head, gl, gr) && p in st.mem && p != head && p.internal
      requires p in st.rng && 0 < st.rng[p].sp <= |st.leaves| && v == st.leaves[st.rng[p].sp - 1]
      modifies this`st, st.mem.Keys
      ensures Coupled() && st == old(st).(ext := st.ext)
      ensures st.Framed(head, if st.rng[p].sp == gl then 0 else gl, gr)
    {
      JrbList.SetLext(st.ext, st.mem, head, st.rng, st.leaves, st.gaps, gl, gr, p);
      SetLext(p, v);
    }

    /* ---------- insertion ---------- */

    method FirstLinks(q: Node)
      requires Coupled() && head in st.mem && q !in st.mem && !q.internal && !q.left && !q.root && !q.red
      requires st.mem[head].blink == head
      modifies this`st, st.mem.Keys, q
      ensures Coupled() && st == old(st).(mem := FirstSteps(old(st), head, q, old(q.parent)), red := Put(old(st).red, q, false))
    {
      InsertList(q, head);
      Adopt(q);
      SetParent(head, q);
      SetParent(q, head);
      SetRoot(q, true);
    }

    method InsertFirst(q: Node)
      requires Valid() && st.leaves == []
      requires q !in st.mem && !q.internal && !q.left && !q.root && !q.red
      modifies this`st, st.mem.Keys, q
      ensures Valid() && st.leaves == [q] && st.mem.Keys == old(st).mem.Keys + {q} && st.RootBlack(head, head)
    {
      ghost var s := st;
      EmptyIs(s, head);
      FirstValid(s, head, q);
      FirstLinks(q);
      FirstStepsAre(s, head, q, old(q.parent));
      Regard(FirstState(s, head, q));
    }

    /** mk_new_int up to its recolor: the tree is right except for a red pair and one cached leaf. */
    method GrowLeaf(q: Node, t: Node, u: Node, qLeft: bool, ghost k: int) returns (w: Node)
      requires Valid() && 0 <= k < |st.leaves| && t == st.leaves[k]
      requires q !in st.mem && !q.internal && !q.left && !q.root && !q.red && q.parent == q
      requires u == if qLeft then t else At(head, st.leaves, k + 1)
      modifies this`st, st.mem.Keys, q
      ensures Coupled() && st.Framed(head, if qLeft then 0 else k + 2, if qLeft then k else 0) && st.Painted(head, head, w)
      ensures fresh(w) && st.mem.Keys == old(st).mem.Keys + {q, w}
      ensures st.leaves == Inserted(old(st).leaves, if qLeft then k else k + 1, q)
      ensures w != head && w.internal && w in st.red && st.red[w]
      ensures old(st).RootBlack(head, head) ==> st.RootBlack(head, w)
    {
      ghost var s := st;
      w := SpliceLeaf(q, t, u, qLeft, k);
      InsertTree(s, head, k, q, w, qLeft);
      JrbState.InsertList(s, head, k, q, w, qLeft);
      InsertKept(s, head, k, q, w, qLeft);
      if s.RootBlack(head, head) { InsertRoot(s, head, k, q, w, qLeft); }
    }

    /** A new entry q left or right of leaf k. */
    method InsertBeside(q: Node, t: Node, u: Node, qLeft: bool, ghost k: int)
      requires Valid() && 0 <= k < |st.leaves| && t == st.leaves[k]
      requires q !in st.mem && !q.internal && !q.left && !q.root && !q.red && q.parent == q
      requires u == if qLeft then t else At(head, st.leaves, k + 1)
      modifies this`st, st.mem.Keys, q
      ensures Valid() && fresh(st.mem.Keys - old(st.mem.Keys) - {q})
      ensures st.leaves == Inserted(old(st).leaves, if qLeft then k else k + 1, q)
      ensures old(st).RootBlack(head, head) ==> st.RootBlack(head, head)
    {
      var w := GrowLeaf(q, t, u, qLeft, k);
      Recolor(w, if qLeft then 0 else k + 2, if qLeft then k else 0);
      ghost var kq := if qLeft then k else k + 1;
      assert st.leaves[kq] == q && LeafAt(st.mem, head, st.rng, st.leaves, kq);
      assert RangeAt(st.mem, st.rng, st.leaves, st.gaps, q);
      if qLeft {
        FixRext(q, q, 0, k);
      } else {
        FixLext(q, q, k + 2, 0);
      }
    }

    /** jrb_insert_b: a new entry in front of n, or at the end when n is the head. */
    method InsertB(n: Node, key: int, val: int, ghost k: int) returns (q: Node)
      requires Valid() && 0 <= k <= |st.leaves| && n == At(head, st.leaves, k)
      modifies this`st, st.mem.Keys
      ensures Valid() && fresh(st.mem.Keys - old(st.mem.Keys))
      ensures q.key == key && q.val == val && fresh(q)
      ensures st.leaves == Inserted(old(st).leaves, k, q)
      ensures old(st).RootBlack(head, head) ==> st.RootBlack(head, head)
    {
      ghost var s := st;
      EntryFacts(s, head, k);
      assert CoupledAt(head);
      var hp, hb := head.parent, head.blink;
      q := new Node(false, key, val);
      assert Coupled() by {
        forall i {:trigger CoupledAt(i)} | i in st.mem ensures CoupledAt(i) { assert old(CoupledAt(i)); }
      }
      if n == head {
        if hp == head {
          InsertFirst(q);
        } else {
          InsertBeside(q, hb, n, false, k - 1);
        }
      } else {
        InsertBeside(q, n, n, true, k);
      }
    }

    /* ---------- deletion ---------- */

    /** Dead nodes leave the live ones. */
    ghost method Release(a: set<Node>)
      requires Coupled()
      modifies this`st
      ensures Coupled() && st == old(st).(mem := old(st).mem - a)
    {
      st := st.(mem := st.mem - a);
      forall k {:trigger CoupledAt(k)} | k in st.mem ensures CoupledAt(k) { assert old(CoupledAt(k)); }
    }

    /** delete_item: unlinks entry k from the list. */
    method DeleteItem(n: Node, ghost k: int)
      requires Coupled() && st.Framed(head, 0, 0) && 0 <= k < |st.leaves| && n == st.leaves[k]
      modifies this`st, st.mem.Keys
      ensures At(head, old(st).leaves, k + 1) in old(st).mem && At(head, old(st).leaves, k - 1) in old(st).mem
      ensures Coupled() && st == old(st).(mem := Unlinked(old(st), head, k))
    {
      LeafFacts(st, head, k);
      assert CoupledAt(n);
      var nx, pv := n.flink, n.blink;
      SetBlink(nx, pv);
      SetFlink(pv, nx);
    }

    /** Deleting the only entry. */
    method DeleteOnly(n: Node)
      requires Valid() && st.leaves == [n] && n in st.mem && n.root
      modifies this`st, st.mem.Keys
      ensures Valid() && st.leaves == [] && st.mem.Keys <= old(st).mem.Keys
    {
      ghost var s := st;
      LeafFacts(s, head, 0);
      assert CoupledAt(n);
      DeleteItem(n, 0);
      assert CoupledAt(n) && st.mem[n].parent == head;
      var p := n.parent;
      SetParent(p, p);
      OnlyIs(s, head, n);
      EmptyValid(s, head);
      Release(s.mem.Keys - {head});
      Regard(EmptyState(s, head));
    }

    /** s.parent = p.parent and the child or root link to s; n and p leave the tree. */
    method HookSibling(s: Node, p: Node)
      requires Coupled() && s in st.mem && p in st.mem && st.mem[p].parent in st.mem
      requires st.mem[p].parent != s && p != s
      modifies this`st, st.mem.Keys
      ensures Coupled() && st == old(st).(mem := CutSteps(old(st).mem, head, s, p))
    {
      assert CoupledAt(p);
      var gp, pr, pl := p.parent, p.root, p.left;
      SetParent(s, gp);
      if pr {
        SetParent(gp, s);
        SetRoot(s, true);
      } else if pl {
        SetFlink(gp, s);
        SetLeft(s, true);
      } else {
        SetBlink(gp, s);
        SetLeft(s, false);
      }
    }

    /** Entry k and its parent are removed; the sibling s takes the parent's place. */
    method CutLeaf(n: Node, ghost k: int) returns (s: Node, ir: bool, pr: bool)
      requires Valid() && 0 <= k < |st.leaves| && n == st.leaves[k] && n in st.mem && !n.root && Deletable(st, head, k)
      modifies this`st, st.mem.Keys
      ensures Coupled() && st == DeleteState(old(st), head, k)
      ensures n in old(st).mem && old(st).mem[n].parent in old(st).mem && old(st).mem[n].parent in old(st).red
      ensures var p := old(st).mem[n].parent;
              s == old(st).mem[p].Kid(!old(st).mem[n].left) && ir == old(st).red[p] && pr == old(st).mem[p].root
    {
      ghost var s0 := st;
      DeleteFacts(s0, head, k);
      LeafFacts(s0, head, k);
      UnlinkedSame(s0, head, k);
      ghost var m1 := Unlinked(s0, head, k);
      CutFits(m1, head, s0.rng, s0.leaves, s0.gaps, n);
      CutStepsAre(m1, head, s0.rng, s0.leaves, s0.gaps, n);
      DeleteItem(n, k);
      assert CoupledAt(n);
      var p := n.parent;
      assert CoupledAt(p);
      s := if n.left then p.blink else p.flink;
      pr, ir := p.root, p.red;
      HookSibling(s, p);
      Release({n, p});
      Regard(DeleteState(s0, head, k));
    }

    /** The same, with what is known afterwards: the sibling may be one short. */
    method Detach(n: Node, ghost k: int) returns (s: Node, ir: bool, pr: bool, il: bool)
      requires Valid() && 0 <= k < |st.leaves| && n == st.leaves[k] && n in st.mem && !n.root
      modifies this`st, st.mem.Keys
      ensures Coupled() && st.Framed(head, if il then 0 else k, if il then k else 0)
      ensures var x := if ir then head else s; st.Painted(head, x, x)
      ensures st.leaves == Removed(old(st).leaves, k) && st.mem.Keys <= old(st).mem.Keys
      ensures s in st.mem && s != head && s in st.rng && s in st.red && s in st.bh && st.bh[s] == 1
      ensures ir ==> !st.red[s]
      ensures st.mem[s].root == pr
      ensures (il ==> st.rng[s].lo == k) && (!il ==> st.rng[s].hi == k)
      ensures pr ==> (il ==> k == 0) && (!il ==> k == |st.leaves|)
      ensures st.red == old(st).red && head in old(st).mem && head in st.mem
      ensures st.mem[head].parent == if pr then s else old(st).mem[head].parent
      ensures LiftsInner(old(st), n) <==> pr && s.internal
    {
      ghost var s0 := st;
      assert CoupledAt(n);
      il := n.left;
      DeleteFacts(s0, head, k);
      DeleteTree(s0, head, k);
      DeleteColored(s0, head, k);
      DeleteList(s0, head, k);
      DeleteRoot(s0, head, k);
      s, ir, pr := CutLeaf(n, k);
    }

    /** Update proper rext and lext values. */
    method FixEnds(s: Node, ghost gl: int, ghost gr: int)
      requires Coupled() && st.Framed(head, gl, gr) && s in st.mem && s != head && s in st.rng
      requires 0 <= st.rng[s].lo < st.rng[s].hi <= |st.leaves|
      requires gl == 0 || gl == st.rng[s].hi
      requires gr == 0 || gr == st.rng[s].lo
      requires if s.internal then
                 st.leaves[st.rng[s].lo] == st.mem[s].flink && st.leaves[st.rng[s].hi - 1] == st.mem[s].blink
               else st.leaves[st.rng[s].lo] == s && st.rng[s].hi == st.rng[s].lo + 1
      modifies this`st, st.mem.Keys
      ensures Coupled() && st == old(st).(ext := st.ext) && st.Framed(head, 0, 0)
    {
      assert CoupledAt(s);
      var f, b := if s.internal then s.flink else s, if s.internal then s.blink else s;
      FixRext(s, f, gl, gr);
      FixLext(s, b, gl, 0);
    }

    method PaintShort(s: Node)
      requires Coupled() && Linked(st.mem, head) && st.Painted(head, s, s) && s in st.mem && s != head
      requires s in st.red && st.red[s] && s in st.bh
      modifies this`st, s`red
      ensures Coupled() && st == old(st).(red := st.red, bh := st.bh) && st.Painted(head, head, head)
      ensures st.red == old(st).red[s := false]
    {
      BlackShort(st.mem, head, st.red, st.bh, s);
      SetHeights(Put(st.bh, s, st.bh[s] + 1));
      Paint(s, false);
    }

    /** Deletion, far nephew red (virtual colours c and heights b): rotation 2.3f. */
    method RotateFar(y: Node, l: bool, ghost x: Node, ghost d: Node, ghost c: Reds, ghost b: Heights) returns (ghost b': Heights)
      requires Coupled() && st.Framed(head, 0, 0)
      requires y in st.mem && y != head && y.internal && st.mem[y].Kid(l) == x && x in st.mem && x.internal
      requires st.mem[x].Kid(l) == d && Colored(st.mem, head, c, b, st.mem[y].Kid(!l), head)
      requires x in c && d in c && !c[x] && c[d]
      modifies this`st, st.mem.Keys
      ensures Coupled() && st.Framed(head, 0, 0) && Same(old(st)) && Risen(old(st), st, head, y, x)
      ensures y in c && Colored(st.mem, head, c[d := false][x := c[y]][y := false], b', head, head)
    {
      ghost var s := st;
      SingleRotate(y, l, 0, 0);
      KnownHolds(s.mem, head, c, b, s.mem[y].Kid(!l), head, y, l);
      FarColored(s.mem, head, c, b, y, l);
      b' := b[d := b[x]][y := b[x]][x := b[y]];
    }

    /** Deletion, black sibling below a red parent: the second rotation of 2.3d. */
    method RotateKeep(y: Node, l: bool, ghost x: Node, ghost c: Reds, ghost b: Heights) returns (ghost b': Heights)
      requires Coupled() && st.Framed(head, 0, 0)
      requires y in st.mem && y != head && y.internal && st.mem[y].Kid(l) == x && x in st.mem && x.internal
      requires Colored(st.mem, head, c, b, st.mem[y].Kid(!l), head)
      requires y in c && x in c && st.mem[x].Kid(!l) in c && c[y] && !c[x] && !c[st.mem[x].Kid(!l)]
      modifies this`st, st.mem.Keys
      ensures Coupled() && st.Framed(head, 0, 0) && Same(old(st)) && Risen(old(st), st, head, y, x)
      ensures Colored(st.mem, head, c, b', head, head)
    {
      ghost var s := st;
      SingleRotate(y, l, 0, 0);
      KnownHolds(s.mem, head, c, b, s.mem[y].Kid(!l), head, y, l);
      KeepColored(s.mem, head, c, b, y, l);
      b' := b[y := b[y] - 1];
    }

    /** The tree is right except that n, a black child of p with sibling s, is one short. */
    ghost predicate Short(n: Node, p: Node, s: Node)
      reads this, st.mem.Keys, n
    {
      && Coupled() && st.Framed(head, 0, 0) && st.Painted(head, n, head)
      && n in st.mem && n != head && p in st.mem && p != head && p.internal && s in st.mem && s != head
      && st.mem[p].Kid(n.left) == n && st.mem[p].Kid(!n.left) == s
      && n in st.red && !st.red[n] && p in st.red && s in st.red && s in st.bh && p in st.bh
    }

    /** Parent and sibling of a short node that is not the root. */
    method Family(n: Node) returns (p: Node, s: Node)
      requires Coupled() && st.Framed(head, 0, 0) && st.Painted(head, n, head)
      requires n in st.mem && n != head && !st.mem[n].root && n in st.red && !st.red[n]
      ensures Short(n, p, s)
    {
      ParentOf(st.mem, head, st.rng, st.leaves, st.gaps, n);
      assert CoupledAt(n);
      p := n.parent;
      assert CoupledAt(p) && EdgeAt(st.mem, head, p, !n.left);
      assert ColorAt(st.mem, st.red, st.bh, n, head, p);
      s := if n.left then p.blink else p.flink;
    }

    /** The sibling of a short node is internal, and black below a red parent. */
    lemma SiblingInner(n: Node, p: Node, s: Node)
      requires Short(n, p, s)
      ensures s.internal && (st.red[p] ==> !st.red[s])
      ensures st.mem[s].flink in st.mem && st.mem[s].blink in st.mem && st.mem[s].flink in st.red && st.mem[s].blink in st.red
      ensures st.mem[s].flink != head && st.mem[s].blink != head
      ensures st.mem[n].left == n.left && st.mem[n].parent == p && !st.mem[n].root && n != s && n != p && s != p
      ensures n in st.rng && p in st.rng && Span(st.rng, n) < Span(st.rng, p) <= |st.leaves|
    {
      SpanLess(st.mem, head, st.rng, st.leaves, st.gaps, p, n.left);
      SpanLess(st.mem, head, st.rng, st.leaves, st.gaps, p, !n.left);
      assert RangeAt(st.mem, st.rng, st.leaves, st.gaps, p);
      assert EdgeAt(st.mem, head, p, n.left) && EdgeAt(st.mem, head, p, !n.left);
      assert ColorAt(st.mem, st.red, st.bh, n, head, p) && ColorAt(st.mem, st.red, st.bh, n, head, n);
      assert ColorAt(st.mem, st.red, st.bh, n, head, s);
      assert EdgeAt(st.mem, head, s, true) && EdgeAt(st.mem, head, s, false);
    }

    /** A short node, and whether its parent, sibling and nephews are all black. */
    ghost predicate Turn(n: Node, p: Node, s: Node, b: bool)
      reads this, st.mem.Keys, n
    {
      && Short(n, p, s) && s.internal && st.mem[s].flink in st.red && st.mem[s].blink in st.red
      && (b <==> !st.red[p] && !st.red[s] && !st.red[st.mem[s].flink] && !st.red[st.mem[s].blink])
    }

    /** The condition of the recolouring loop of jrb_delete_node. */
    method AllBlack(n: Node, p: Node, s: Node) returns (b: bool)
      requires Short(n, p, s)
      ensures Turn(n, p, s, b)
    {
      SiblingInner(n, p, s);
      assert CoupledAt(p) && CoupledAt(s) && CoupledAt(st.mem[s].flink) && CoupledAt(st.mem[s].blink);
      b := !p.red && !s.red && s.internal && !s.flink.red && !s.blink.red;
    }

    /** Body of the recolouring loop of jrb_delete_node. */
    method ReddenSibling(n: Node, p: Node, s: Node)
      requires Short(n, p, s) && s.internal && !st.red[p] && !st.red[s]
      requires st.mem[s].flink in st.red && st.mem[s].blink in st.red && !st.red[st.mem[s].flink] && !st.red[st.mem[s].blink]
      modifies this`st, st.mem.Keys
      ensures Coupled() && st == old(st).(red := st.red, bh := st.bh) && st.Painted(head, p, head)
      ensures p in st.red && !st.red[p] && Kept(old(st))
    {
      SiblingInner(n, p, s);
      KidNotRoot(st.mem, head, p, !n.left);
      ShortUp(st.mem, head, st.red, st.bh, p, n.left);
      SetHeights(Put(Put(st.bh, s, st.bh[s] - 1), p, st.bh[p] - 1));
      Paint(s, true);
    }

    /** Rotation 2.3b: a red sibling is rotated above p; s' is n's new, black sibling. */
    method RaiseSibling(n: Node, p: Node, s: Node) returns (s': Node)
      requires Short(n, p, s) && !st.red[p] && st.red[s]
      modifies this`st, st.mem.Keys
      ensures Short(n, p, s') && Kept(old(st)) && st.red[p]
    {
      SiblingInner(n, p, s);
      RotateSwap(p, !n.left, s, n, head, 0, 0);
      SwapPaint(s, p, n);
      SwapRoot(old(st), st, head, p, s, p);
      assert EdgeAt(st.mem, head, p, old(n.left)) && EdgeAt(st.mem, head, p, !old(n.left)) && CoupledAt(p) && CoupledAt(n);
      assert ColorAt(st.mem, st.red, st.bh, n, head, p);
      s' := if n.left then p.blink else p.flink;
    }

    /** Rotation 2.3f: the far nephew z is red. */
    method RepairFar(n: Node, p: Node, s: Node, z: Node, il: bool)
      requires Short(n, p, s) && il == n.left && z == st.mem[s].Kid(!il)
      requires !st.red[s] && z in st.red && st.red[z] && z in st.mem
      modifies this`st, st.mem.Keys
      ensures Valid() && Kept(old(st))
    {
      KidNotRoot(st.mem, head, p, !il);
      SiblingInner(n, p, s);
      assert CoupledAt(p) && CoupledAt(s);
      ghost var c := st.red;
      var pr := p.red;
      ghost var b := RotateFar(p, !il, s, z, st.red, st.bh);
      Paint(z, false);
      Paint(s, pr);
      Paint(p, false);
      SetHeights(b);
      FarRoot(old(st), st, head, p, s, z);
    }

    /** Recolouring 2.3c: both nephews are black, so the parent is red. */
    method RepairNear(n: Node, p: Node, s: Node)
      requires Short(n, p, s) && st.red[p] && !st.red[s] && s.internal
      requires st.mem[s].flink in st.red && st.mem[s].blink in st.red && !st.red[st.mem[s].flink] && !st.red[st.mem[s].blink]
      modifies this`st, st.mem.Keys
      ensures Valid() && Kept(old(st))
    {
      KidNotRoot(st.mem, head, p, !n.left);
      ShortEnds(st.mem, head, st.red, st.bh, p, n.left);
      SetHeights(Put(st.bh, s, st.bh[s] - 1));
      Paint(p, false);
      Paint(s, true);
    }

    /**
      First rotation of 2.3d and 2.3e: the red near nephew x rises above s. Were the colours of
      x and s exchanged, x would be n's black sibling with the red child s.
     */
    method RaiseNephew(n: Node, p: Node, s: Node, x: Node, il: bool) returns (ghost b: Heights)
      requires Short(n, p, s) && il == n.left && x == st.mem[s].Kid(il) && s.internal
      requires !st.red[s] && x in st.red && st.red[x] && x in st.mem && x.internal
      requires st.mem[s].Kid(!il) in st.red && !st.red[st.mem[s].Kid(!il)]
      modifies this`st, st.mem.Keys
      ensures Coupled() && st.Framed(head, 0, 0) && Same(old(st)) && Risen(old(st), st, head, s, x)
      ensures Colored(st.mem, head, st.red[x := false][s := true], b, n, head)
      ensures st.mem[p].Kid(il) == n && st.mem[p].Kid(!il) == x && st.mem[x].Kid(!il) == s
      ensures st.mem[x].Kid(il) in st.red && !st.red[st.mem[x].Kid(il)] && st.mem[x].Kid(il) != s && st.mem[x].Kid(il) != x
      ensures x != n && x != p && s != p && x != s
    {
      ghost var s0 := st;
      SiblingInner(n, p, s);
      SpanLess(s0.mem, head, s0.rng, s0.leaves, s0.gaps, p, il);
      SpanLess(s0.mem, head, s0.rng, s0.leaves, s0.gaps, p, !il);
      SpanLess(s0.mem, head, s0.rng, s0.leaves, s0.gaps, s, il);
      SpanLess(s0.mem, head, s0.rng, s0.leaves, s0.gaps, x, il);
      assert ColorAt(s0.mem, s0.red, s0.bh, n, head, x);
      SingleRotate(s, il, 0, 0);
      KnownHolds(s0.mem, head, s0.red, s0.bh, n, head, s, il);
      assert EdgeAt(s0.mem, head, p, il) && EdgeAt(s0.mem, head, s, il);
      SwapColored(s0.mem, head, s0.red, s0.bh, s, il, n, head);
      b := s0.bh[x := s0.bh[s]][s := s0.bh[s] - 1];
      NephewAfter(s0, n, p, s, x, il);
    }

    /** Where the nephew's rotation leaves the family. */
    lemma NephewAfter(s0: State, n: Node, p: Node, s: Node, x: Node, il: bool)
      requires Linked(s0.mem, head) && Fits(s0.mem, s, il) && Distinct(s0.mem, head, s, il) && x == s0.mem[s].Kid(il)
      requires p in s0.mem && p != head && p != s && p != x && p.internal && s0.mem[p].Kid(il) == n && s0.mem[p].Kid(!il) == s
      ensures var m' := Rotate(s0.mem, s, il);
              && p in m' && x in m' && m'[p].Kid(il) == n && m'[p].Kid(!il) == x && m'[x].Kid(!il) == s
              && m'[x].Kid(il) == s0.mem[x].Kid(il)
    {
      assert EdgeAt(s0.mem, head, p, il) && EdgeAt(s0.mem, head, p, !il);
      TopAfter(s0.mem, head, s, il);
      KidAfter(s0.mem, head, s, il, p, il);
      KidAfter(s0.mem, head, s, il, p, !il);
    }

    /** 2.3d: only the near nephew x is red, below a red parent. */
    method RepairDoubleRed(n: Node, p: Node, s: Node, x: Node, il: bool)
      requires Short(n, p, s) && il == n.left && x == st.mem[s].Kid(il) && s.internal
      requires !st.red[s] && x in st.red && st.red[x] && x in st.mem && x.internal
      requires st.mem[s].Kid(!il) in st.red && !st.red[st.mem[s].Kid(!il)]
      requires st.red[p]
      modifies this`st, st.mem.Keys
      ensures Valid() && Kept(old(st))
    {
      KidNotRoot(st.mem, head, p, !il);
      ghost var b := RaiseNephew(n, p, s, x, il);
      ghost var c: Reds := st.red[x := false][s := true];
      b := RotateKeep(p, !il, x, c, b);
      Paint(x, false);
      Paint(s, true);
      SetHeights(b);
      SwapRoot(old(st), st, head, p, x, s);
    }

    /** 2.3e: only the near nephew x is red, below a black parent. */
    method RepairDoubleBlack(n: Node, p: Node, s: Node, x: Node, il: bool)
      requires Short(n, p, s) && il == n.left && x == st.mem[s].Kid(il) && s.internal
      requires !st.red[s] && x in st.red && st.red[x] && x in st.mem && x.internal
      requires st.mem[s].Kid(!il) in st.red && !st.red[st.mem[s].Kid(!il)]
      requires !st.red[p]
      modifies this`st, st.mem.Keys
      ensures Valid() && Kept(old(st))
    {
      KidNotRoot(st.mem, head, p, !il);
      ghost var b := RaiseNephew(n, p, s, x, il);
      ghost var c: Reds := st.red[x := false][s := true];
      b := RotateFar(p, !il, x, s, c, b);
      ghost var c2: Reds := st.red[x := false];
      assert Put(Put(Put(c, s, false), x, false), p, false) == c2;
      Paint(x, false);
      SetHeights(b);
      RiseRoot(old(st), st, head, p, x);
    }

    /** The last step of jrb_delete_node; its two error exits cannot be reached. */
    method RepairLast(n: Node, p: Node, s: Node)
      requires Short(n, p, s) && !st.red[s]
      requires st.red[p] || (st.mem[s].flink in st.red && st.red[st.mem[s].flink]) || (st.mem[s].blink in st.red && st.red[st.mem[s].blink])
      modifies this`st, st.mem.Keys
      ensures Valid() && Kept(old(st))
    {
      SiblingInner(n, p, s);
      if !s.internal {
        assert false;
      }
      assert CoupledAt(s) && CoupledAt(p) && CoupledAt(st.mem[s].flink) && CoupledAt(st.mem[s].blink);
      assert ColorAt(st.mem, st.red, st.bh, n, head, st.mem[s].flink) && ColorAt(st.mem, st.red, st.bh, n, head, st.mem[s].blink);
      var il := n.left;
      var x := if il then s.flink else s.blink;
      var z := if il then s.blink else s.flink;
      if z.red {
        RepairFar(n, p, s, z, il);
      } else if !x.red {
        if s.red || !p.red {
          assert false;
        }
        RepairNear(n, p, s);
      } else if p.red {
        RepairDoubleRed(n, p, s, x, il);
      } else {
        RepairDoubleBlack(n, p, s, x, il);
      }
    }

    /** What follows the recolouring loop. */
    method RepairTail(n: Node, p: Node, s0: Node)
      requires Turn(n, p, s0, false)
      modifies this`st, st.mem.Keys
      ensures Valid() && Kept(old(st))
    {
      var s := s0;
      assert CoupledAt(p) && CoupledAt(s);
      if !p.red && s.red {
        s := RaiseSibling(n, p, s);
      }
      SiblingInner(n, p, s);
      RepairLast(n, p, s);
    }

    /** One turn of the recolouring loop: the shortage disappears at the root or moves up to a larger subtree. */
    method ShortStep(n: Node, p: Node, s: Node) returns (done: bool, p': Node, s': Node)
      requires Turn(n, p, s, true)
      modifies this`st, st.mem.Keys
      ensures st == old(st).(red := st.red, bh := st.bh) && Kept(old(st))
      ensures if done then Valid() else Short(p, p', s')
      ensures n in st.rng && p in st.rng && Span(st.rng, n) < Span(st.rng, p) <= |st.leaves|
    {
      SiblingInner(n, p, s);
      ReddenSibling(n, p, s);
      assert CoupledAt(p);
      done, p', s' := p.root, p, s;
      if done {
        NoException(st.mem, head, st.red, st.bh, p, head);
      } else {
        p', s' := Family(p);
      }
    }

    /** jrb_delete_node's recolouring and rotations: n0, a black node, is one short. */
    method DeleteRepair(n0: Node)
      requires Coupled() && st.Framed(head, 0, 0) && st.Painted(head, n0, head)
      requires n0 in st.mem && n0 != head && !st.mem[n0].root && n0 in st.red && !st.red[n0]
      modifies this`st, st.mem.Keys
      ensures Valid() && Kept(old(st))
    {
      var n := n0;
      var p, s := Family(n);
      var more := AllBlack(n, p, s);
      while more
        invariant st == old(st).(red := st.red, bh := st.bh) && Kept(old(st))
        invariant Turn(n, p, s, more)
        decreases |st.leaves| - if n in st.rng then Span(st.rng, n) else 0
      {
        var done, p', s' := ShortStep(n, p, s);
        if done {
          return;
        }
        n, p, s := p, p', s';
        more := AllBlack(n, p, s);
      }
      RepairTail(n, p, s);
    }

    /** The end of jrb_delete_node: s, in the place of the deleted entry's parent, may be one short. */
    method Settle(s: Node, ir: bool, ghost gl: int, ghost gr: int)
      requires Coupled() && st.Framed(head, gl, gr)
      requires var x := if ir then head else s; st.Painted(head, x, x)
      requires s in st.mem && s != head && s in st.red && s in st.bh && st.bh[s] == 1 && !st.mem[s].root
      requires ir ==> !st.red[s]
      requires s in st.rng && (gl == 0 || gl == st.rng[s].hi) && (gr == 0 || gr == st.rng[s].lo)
      modifies this`st, st.mem.Keys
      ensures Valid() && st.mem.Keys == old(st).mem.Keys && st.leaves == old(st).leaves
      ensures old(st).RootBlack(head, head) ==> st.RootBlack(head, head)
    {
      LowNode(st, head, if ir then head else s, s);
      FixEnds(s, gl, gr);
      assert CoupledAt(s);
      if s.internal {
        if !s.red {
          assert false;
        }
        PaintShort(s);
        return;
      }
      if ir {
        return;
      }
      BlackNoException(st.mem, head, st.red, st.bh, s, s);
      DeleteRepair(s);
    }

    /** jrb_delete_node: entry k disappears. Only an internal node that takes the place of the root is a red root. */
    method DeleteNode(n: Node, ghost k: int)
      requires Valid() && 0 <= k < |st.leaves| && n == st.leaves[k]
      modifies this`st, st.mem.Keys
      ensures Valid() && st.mem.Keys <= old(st.mem.Keys)
      ensures st.leaves == Removed(old(st).leaves, k)
      ensures old(st).RootBlack(head, head) ==> (st.RootBlack(head, head) <==> !LiftsInner(old(st), n))
    {
      LeafFacts(st, head, k);
      assert CoupledAt(n);
      if n.root {
        DeleteOnly(n);
        EntryFacts(st, head, 0);
        return;
      }
      var s, ir, pr, il := Detach(n, k);
      ghost var gl, gr := if il then 0 else k, if il then k else 0;
      ghost var x := if ir then head else s;
      LowNode(st, head, x, s);
      if pr {
        EndGaps(st.ext, st.mem, st.rng, st.leaves, gl, gr);
        NoException(st.mem, head, st.red, st.bh, x, x);
        return;
      }
      Settle(s, ir, gl, gr);
    }

    /* ---------- lookup ---------- */

    /**
      jrb_find_gte_int: an entry with the key if there is one, otherwise the first entry with a
      greater key, or the head; k is the position of the result.
     */
    method FindGteInt(ikey: int) returns (n: Node, fnd: bool, ghost k: int)
      requires Valid() && Ordered(st.leaves)
      ensures 0 <= k <= |st.leaves| && n == At(head, st.leaves, k)
      ensures fnd ==> k < |st.leaves| && n.key == ikey
      ensures !fnd ==> forall i :: 0 <= i < |st.leaves| ==> if i < k then st.leaves[i].key < ikey else ikey < st.leaves[i].key
    {
      EntryFacts(st, head, |st.leaves|);
      assert CoupledAt(head);
      n, fnd, k := head, false, |st.leaves|;
      if n.parent == n {
        return;
      }
      if ikey == n.blink.key {
        return n.blink, true, k - 1;
      }
      if ikey > n.blink.key {
        return;
      }
      n := n.parent;
      assert UpAt(st.mem, head, n) && RangeAt(st.mem, st.rng, st.leaves, st.gaps, n);
      while n.internal
        invariant n in st.mem && n != head && n in st.rng && 0 <= st.rng[n].lo < st.rng[n].hi <= |st.leaves|
        invariant forall i :: 0 <= i < st.rng[n].lo ==> st.leaves[i].key < ikey
        invariant ikey < st.leaves[st.rng[n].hi - 1].key
        decreases Span(st.rng, n)
      {
        assert CoupledAt(n) && CacheAt(st.ext, st.rng, st.leaves, 0, 0, n);
        assert RangeAt(st.mem, st.rng, st.leaves, st.gaps, n);
        SpanLess(st.mem, head, st.rng, st.leaves, st.gaps, n, true);
        SpanLess(st.mem, head, st.rng, st.leaves, st.gaps, n, false);
        if ikey == n.lext.key {
          return n.lext, true, st.rng[n].sp - 1;
        }
        n := if ikey < n.lext.key then n.flink else n.blink;
      }
      assert RangeAt(st.mem, st.rng, st.leaves, st.gaps, n);
      k := st.rng[n].lo;
    }

    /** jrb_find_int: an entry with the key, or none when no entry has it. */
    method FindInt(ikey: int) returns (n: Node?, ghost k: int)
      requires Valid() && Ordered(st.leaves)
      ensures n != null ==> 0 <= k < |st.leaves| && n == st.leaves[k] && n.key == ikey
      ensures n == null <==> forall e :: e in st.leaves ==> e.key != ikey
    {
      var r, fnd, i := FindGteInt(ikey);
      return if fnd then r else null, i;
    }

    /** jrb_insert_int: the new entry keeps the order and stands directly in front of one with its key, if there is any. */
    method InsertInt(ikey: int, val: int) returns (q: Node, ghost k: int)
      requires Valid() && Ordered(st.leaves)
      modifies this`st, st.mem.Keys
      ensures Valid() && fresh(st.mem.Keys - old(st.mem.Keys))
      ensures q.key == ikey && q.val == val && 0 <= k <= |old(st).leaves| && st.leaves == Inserted(old(st).leaves, k, q)
      ensures (k < |old(st).leaves| && old(st).leaves[k].key == ikey) || forall e :: e in old(st).leaves ==> e.key != ikey
      ensures Ordered(st.leaves) && (old(st).RootBlack(head, head) ==> st.RootBlack(head, head))
    {
      var n, fnd, i := FindGteInt(ikey);
      q := InsertB(n, ikey, val, i);
      k := i;
    }

    /* ---------- shape of the tree ---------- */

    /** jrb_nblack: the same for every entry, and it bounds the number of entries from below. */
    method NBlack(e: Node) returns (nb: int, ghost p: seq<Node>)
      requires Valid() && e in st.leaves
      ensures Way(st.mem, head, e, p) && nb == Blacks(st.red, p)
      ensures st.mem[head].parent in st.bh && nb == st.bh[st.mem[head].parent] && 1 <= nb
      ensures Pow2(nb - 1) <= |st.leaves|
    {
      ghost var i :| 0 <= i < |st.leaves| && st.leaves[i] == e;
      LeafFacts(st, head, i);
      var n := e;
      nb, p := 0, [];
      assert ColorAt(st.mem, st.red, st.bh, head, head, n);
      while n != head
        invariant n in st.mem && nb == Blacks(st.red, p) && Climbed(st.mem, head, e, p, n)
        invariant n != head ==> n in st.bh && n in st.red && nb + (if st.red[n] then 0 else 1) == st.bh[n]
        invariant n == head ==> st.mem[head].parent in st.bh && nb == st.bh[st.mem[head].parent]
        decreases if n == head then 0 else 1 + |st.leaves| - (if n in st.rng then Span(st.rng, n) else 0)
      {
        assert CoupledAt(n) && UpAt(st.mem, head, n) && RangeAt(st.mem, st.rng, st.leaves, st.gaps, n);
        if !n.red {
          nb := nb + 1;
        }
        p := p + [n];
        if !n.root {
          ParentOf(st.mem, head, st.rng, st.leaves, st.gaps, n);
          assert ColorAt(st.mem, st.red, st.bh, head, head, n.parent);
        }
        n := n.parent;
      }
      ManyLeaves(st, head, st.mem[head].parent);
      assert UpAt(st.mem, head, st.mem[head].parent) && RangeAt(st.mem, st.rng, st.leaves, st.gaps, st.mem[head].parent);
    }

    /** jrb_plength: the path to the root is at most twice as long as it has black nodes. */
    method PLength(e: Node) returns (pl: int, ghost p: seq<Node>)
      requires Valid() && e in st.leaves
      ensures Way(st.mem, head, e, p) && pl == |p|
      ensures st.mem[head].parent in st.bh && |p| <= 2 * st.bh[st.mem[head].parent]
    {
      ghost var i :| 0 <= i < |st.leaves| && st.leaves[i] == e;
      LeafFacts(st, head, i);
      var n := e;
      pl, p := 0, [];
      assert ColorAt(st.mem, st.red, st.bh, head, head, n);
      while n != head
        invariant n in st.mem && pl == |p| && Climbed(st.mem, head, e, p, n)
        invariant n != head ==> n in st.bh && n in st.red && pl + 1 <= 2 * st.bh[n] - (if st.red[n] then 0 else 1)
        invariant n == head ==> st.mem[head].parent in st.bh && 1 <= pl <= 2 * st.bh[st.mem[head].parent]
        decreases if n == head then 0 else 1 + |st.leaves| - (if n in st.rng then Span(st.rng, n) else 0)
      {
        assert CoupledAt(n) && UpAt(st.mem, head, n) && RangeAt(st.mem, st.rng, st.leaves, st.gaps, n);
        pl := pl + 1;
        p := p + [n];
        if !n.root {
          ParentOf(st.mem, head, st.rng, st.leaves, st.gaps, n);
          assert ColorAt(st.mem, st.red, st.bh, head, head, n.parent);
        }
        n := n.parent;
      }
    }
  }

  /** From e over the nodes of p, each below the next one, to n. */
  ghost predicate Climbed(m: Links, h: Node, e: Node, p: seq<Node>, n: Node) {
    && (forall i {:trigger p[i]} :: 0 <= i < |p| ==> p[i] in m && p[i] != h)
    && (forall i {:trigger p[i]} :: 0 <= i < |p| - 1 ==> p[i] in m && m[p[i]].parent == p[i + 1])
    && (if p == [] then n == e else p[0] == e && p[|p| - 1] in m && m[p[|p| - 1]].parent == n)
  }

  /** The nodes from e up to the root, which is the one below the head. */
  ghost predicate Way(m: Links, h: Node, e: Node, p: seq<Node>) {
    p != [] && Climbed(m, h, e, p, h)
  }

  ghost function Blacks(c: Reds, p: seq<Node>): nat {
    if p == [] then 0
    else
      var n := p[|p| - 1];
      Blacks(c, p[..|p| - 1]) + if n in c && !c[n] then 1 else 0
  }

  /** The state with node n in it. */
  ghost function Adopted(s: State, n: Node, l: Link, r: bool, e: Ends): State {
    s.(mem := Put(s.mem, n, l), red := Put(s.red, n, r), ext := if n.internal then Put(s.ext, n, e) else s.ext)
  }

  lemma AdoptedKeeps(s: State, n: Node, l: Link, r: bool, e: Ends, k: Node)
    requires k != n
    ensures var s' := Adopted(s, n, l, r, e);
            && (k in s'.mem <==> k in s.mem) && (k in s.mem ==> s'.mem[k] == s.mem[k])
            && (k in s'.red <==> k in s.red) && (k in s.red ==> s'.red[k] == s.red[k])
            && (k in s'.ext <==> k in s.ext) && (k in s.ext ==> s'.ext[k] == s.ext[k])
  {
  }

  /* ---------- whole runs ---------- */

  ghost predicate Ordered(L: seq<Node>) {
    forall i, j :: 0 <= i < j < |L| ==> L[i].key <= L[j].key
  }

  function Keys(L: seq<Node>): seq<int> {
    seq(|L|, i requires 0 <= i < |L| => L[i].key)
  }

  datatype Op = Insert(key: int, val: int) | Delete(key: int)

  /** The keys stored after a run, as a bag. */
  function After(ops: seq<Op>): multiset<int> {
    if ops == [] then multiset{}
    else
      var before := After(ops[..|ops| - 1]);
      match ops[|ops| - 1]
      case Insert(k, _) => before + multiset{k}
      case Delete(k) => before - multiset{k}
  }

  /** The entries: keys with their values. */
  function Pairs(L: seq<Node>): seq<(int, int)> {
    seq(|L|, i requires 0 <= i < |L| => (L[i].key, L[i].val))
  }

  ghost predicate Has(m: multiset<(int, int)>, k: int, v: int) {
    (k, v) in m
  }

  /** What one operation makes of the stored pairs; of several entries with the key any one may be deleted. */
  ghost predicate Changes(m: multiset<(int, int)>, op: Op, m': multiset<(int, int)>) {
    match op
    case Insert(k, v) => m' == m + multiset{(k, v)}
    case Delete(k) =>
      if exists v :: Has(m, k, v) then exists v :: Has(m, k, v) && m' == m - multiset{(k, v)}
      else m' == m
  }

  /** What may be stored after a run. */
  ghost predicate Stores(ops: seq<Op>, m: multiset<(int, int)>) {
    if ops == [] then m == multiset{}
    else
      var front, last := ops[..|ops| - 1], ops[|ops| - 1];
      exists m0 :: Stores(front, m0) && Changes(m0, last, m)
  }

  lemma InsertedKeys(L: seq<Node>, k: int, q: Node)
    requires 0 <= k <= |L|
    ensures multiset(Keys(Inserted(L, k, q))) == multiset(Keys(L)) + multiset{q.key}
    ensures multiset(Pairs(Inserted(L, k, q))) == multiset(Pairs(L)) + multiset{(q.key, q.val)}
  {
    assert Keys(L) == Keys(L)[..k] + Keys(L)[k..];
    assert Keys(Inserted(L, k, q)) == Keys(L)[..k] + [q.key] + Keys(L)[k..];
    assert Pairs(L) == Pairs(L)[..k] + Pairs(L)[k..];
    assert Pairs(Inserted(L, k, q)) == Pairs(L)[..k] + [(q.key, q.val)] + Pairs(L)[k..];
  }

  lemma RemovedKeys(L: seq<Node>, k: int)
    requires 0 <= k < |L|
    ensures multiset(Keys(Removed(L, k))) == multiset(Keys(L)) - multiset{L[k].key}
    ensures Has(multiset(Pairs(L)), L[k].key, L[k].val)
    ensures multiset(Pairs(Removed(L, k))) == multiset(Pairs(L)) - multiset{(L[k].key, L[k].val)}
  {
    assert Keys(L) == Keys(L)[..k] + [L[k].key] + Keys(L)[k + 1..];
    assert Keys(Removed(L, k)) == Keys(L)[..k] + Keys(L)[k + 1..];
    assert Pairs(L) == Pairs(L)[..k] + [(L[k].key, L[k].val)] + Pairs(L)[k + 1..];
    assert Pairs(Removed(L, k)) == Pairs(L)[..k] + Pairs(L)[k + 1..];
  }

  lemma KeyAbsent(L: seq<Node>, key: int)
    requires forall e :: e in L ==> e.key != key
    ensures key !in Keys(L) && forall v :: !Has(multiset(Pairs(L)), key, v)
  {
    forall i | 0 <= i < |L| ensures Keys(L)[i] != key && Pairs(L)[i].0 != key { assert L[i] in L; }
  }

  lemma StoresMore(ops: seq<Op>, m0: multiset<(int, int)>, m: multiset<(int, int)>)
    requires ops != [] && Stores(ops[..|ops| - 1], m0) && Changes(m0, ops[|ops| - 1], m)
    ensures Stores(ops, m)
  {
  }

  /** One operation of a run; deleting an absent key does nothing. */
  method Step(t: Tree, op: Op)
    requires t.Valid() && Ordered(t.st.leaves)
    modifies t`st, t.st.mem.Keys
    ensures t.Valid() && Ordered(t.st.leaves) && fresh(t.st.mem.Keys - old(t.st.mem.Keys))
    ensures Became(old(t.st).leaves, op, t.st.leaves)
  {
    match op
    case Insert(key, val) =>
      var q, k := t.InsertInt(key, val);
      InsertedKeys(old(t.st).leaves, k, q);
    case Delete(key) =>
      DeleteKey(t, key);
  }

  /** The entries L' are those that operation op leaves of L. */
  ghost predicate Became(L: seq<Node>, op: Op, L': seq<Node>) {
    && (op.Insert? ==> multiset(Keys(L')) == multiset(Keys(L)) + multiset{op.key})
    && (op.Delete? ==> multiset(Keys(L')) == multiset(Keys(L)) - multiset{op.key})
    && Changes(multiset(Pairs(L)), op, multiset(Pairs(L')))
  }

  method DeleteKey(t: Tree, key: int)
    requires t.Valid() && Ordered(t.st.leaves)
    modifies t`st, t.st.mem.Keys
    ensures t.Valid() && Ordered(t.st.leaves) && t.st.mem.Keys <= old(t.st.mem.Keys)
    ensures Became(old(t.st).leaves, Delete(key), t.st.leaves)
  {
    ghost var L := t.st.leaves;
    var n, k := t.FindInt(key);
    if n != null {
      t.DeleteNode(n, k);
      RemovedBecame(L, k);
    } else {
      KeyAbsent(L, key);
    }
  }

  lemma RemovedBecame(L: seq<Node>, k: int)
    requires 0 <= k < |L| && Ordered(L)
    ensures Became(L, Delete(L[k].key), Removed(L, k)) && Ordered(Removed(L, k))
  {
    RemovedKeys(L, k);
  }

  /** After any run from an empty tree, the tree is valid, in order, and holds the keys and pairs of the run. */
  method Run(ops: seq<Op>) returns (t: Tree)
    ensures t.Valid() && Ordered(t.st.leaves)
    ensures multiset(Keys(t.st.leaves)) == After(ops) && Stores(ops, multiset(Pairs(t.st.leaves)))
    ensures fresh(t) && fresh(t.st.mem.Keys)
  {
    if ops == [] {
      t := new Tree();
      assert Pairs(t.st.leaves) == [];
    } else {
      t := Run(ops[..|ops| - 1]);
      ghost var L := t.st.leaves;
      Step(t, ops[|ops| - 1]);
      RunMore(ops, L, t.st.leaves);
    }
  }

  /** A red root: three insertions, then the deletion of the entry that is a child of the root. */
  method RedRoot() returns (t: Tree)
    ensures t.Valid() && |t.st.leaves| == 2 && !t.st.RootBlack(t.head, t.head)
    ensures fresh(t) && fresh(t.st.mem.Keys)
  {
    t := new Tree();
    for i := 0 to 3
      invariant fresh(t) && fresh(t.st.mem.Keys) && t.Valid() && Ordered(t.st.leaves)
      invariant |t.st.leaves| == i && t.st.RootBlack(t.head, t.head)
    {
      var q, k := t.InsertInt(i, 0);
    }
    RootOfThree(t.st, t.head);
    assert t.CoupledAt(t.head);
    var r := t.head.parent;
    assert t.CoupledAt(r);
    var inner := r.flink.internal;
    t.DeleteNode(if inner then r.blink else r.flink, if inner then 2 else 0);
  }

  lemma RunMore(ops: seq<Op>, L: seq<Node>, L': seq<Node>)
    requires ops != [] && Became(L, ops[|ops| - 1], L')
    requires multiset(Keys(L)) == After(ops[..|ops| - 1]) && Stores(ops[..|ops| - 1], multiset(Pairs(L)))
    ensures multiset(Keys(L')) == After(ops) && Stores(ops, multiset(Pairs(L')))
  {
    StoresMore(ops, multiset(Pairs(L)), multiset(Pairs(L')));
  }
}
