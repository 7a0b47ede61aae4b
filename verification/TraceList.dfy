/** The trace list: linked both ways, with groups marked by begin and end traces. */
module TraceList {
  import opened Brackets

  class Trace {
    const kind: Kind
    const name: string
    const closed: bool
    const collapsed: bool
    var next: Trace?
    var prev: Trace?
    var grp: Trace?
    var match_: Trace?
    var highlight: bool

    constructor (kind: Kind, name: string, closed: bool, collapsed: bool) {
      this.kind, this.name, this.closed, this.collapsed := kind, name, closed, collapsed;
      next, prev, grp, match_, highlight := null, null, null, null, false;
    }
  }

  function Kinds(q: seq<Trace>): (k: seq<Kind>)
    ensures |k| == |q| && forall i :: 0 <= i < |q| ==> k[i] == q[i].kind
  {
    seq(|q|, i requires 0 <= i < |q| => q[i].kind)
  }

  ghost predicate Distinct(q: seq<Trace>) {
    forall i, j {:trigger q[i], q[j]} :: 0 <= i < j < |q| ==> q[i] != q[j]
  }

  function Get(q: seq<Trace>, i: int): Trace? {
    if 0 <= i < |q| then q[i] else null
  }

  ghost predicate NextAt(q: seq<Trace>, i: nat)
    requires i < |q|
    reads q`next
  {
    q[i].next == Get(q, i + 1)
  }

  ghost predicate PrevAt(q: seq<Trace>, i: nat)
    requires i < |q|
    reads q`prev
  {
    q[i].prev == Get(q, i - 1)
  }

  ghost predicate NextChain(q: seq<Trace>)
    reads q`next
  {
    forall i: nat {:trigger NextAt(q, i)} :: i < |q| ==> NextAt(q, i)
  }

  ghost predicate PrevChain(q: seq<Trace>)
    reads q`prev
  {
    forall i: nat {:trigger PrevAt(q, i)} :: i < |q| ==> PrevAt(q, i)
  }

  lemma DistinctParts(a: seq<Trace>, b: seq<Trace>)
    requires Distinct(a + b)
    ensures Distinct(a) && Distinct(b) && forall t :: t in a ==> t !in b
  {
    var q := a + b;
    assert forall i :: 0 <= i < |a| ==> q[i] == a[i];
    assert forall i :: 0 <= i < |b| ==> q[|a| + i] == b[i];
    forall i, j {:trigger b[i], b[j]} | 0 <= i < j < |b| ensures b[i] != b[j] {
      assert q[|a| + i] != q[|a| + j];
    }
  }

  /** Without q[g..n] and then without the trace that follows, q is without q[g..n + 1]. */
  lemma DropNext(q: seq<Trace>, list: seq<Trace>, g: nat, n: nat)
    requires g <= n < |q| && list == q[..g] + q[n..]
    ensures list[g] == q[n] && list[..g] + list[g + 1..] == q[..g] + q[n + 1..]
    ensures Get(q[..g] + q[n + 1..], g) == Get(list, g + 1)
  {
    assert list[g + 1..] == q[n + 1..];
  }

  /* ---------- groups ---------- */

  /** t_grp of trace i is the begin of the innermost group around it. */
  ghost predicate GroupIs(q: seq<Trace>, k: seq<Kind>, i: nat)
    requires i < |q| == |k|
    reads q`grp
  {
    || (q[i].grp == null && Encloses(k, -1, i))
    || exists j {:trigger Encloses(k, j, i)} :: 0 <= j && Encloses(k, j, i) && q[i].grp == q[j]
  }

  /** An end and its begin point to each other. */
  ghost predicate MatchIs(q: seq<Trace>, k: seq<Kind>, i: nat)
    requires i < |q| == |k|
    reads q`match_
  {
    k[i] == End ==> exists j {:trigger Matches(k, j, i)} :: Matches(k, j, i) && q[i].match_ == q[j] && q[j].match_ == q[i]
  }

  ghost predicate GroupedAt(q: seq<Trace>, k: seq<Kind>, i: nat)
    requires i < |q| == |k|
    reads q`grp, q`match_
  {
    GroupIs(q, k, i) && MatchIs(q, k, i)
  }

  /** The groups of the first n traces are right. */
  ghost predicate Grouped(q: seq<Trace>, k: seq<Kind>, n: nat)
    requires n <= |q| == |k|
    reads q`grp, q`match_
  {
    forall i: nat {:trigger GroupedAt(q, k, i)} :: i < n ==> GroupedAt(q, k, i)
  }

  /** Every begin of a balanced list with right groups points to its end as well. */
  lemma BeginMatches(q: seq<Trace>, k: seq<Kind>, j: nat)
    requires j < |q| == |k| && Balanced(k) && Grouped(q, k, |q|) && k[j] == Begin
    ensures exists i {:trigger Matches(k, j, i)} :: Matches(k, j, i) && q[j].match_ == q[i]
  {
    var i := GroupEnds(k, j);
    assert GroupedAt(q, k, i);
    var j' :| Matches(k, j', i) && q[i].match_ == q[j'] && q[j'].match_ == q[i];
    MatchUnique(k, j, i, j', i);
  }

  /** Index of the last highlighted of the first n traces, or -1. */
  function Lit(q: seq<Trace>, n: nat): (p: int)
    requires n <= |q|
    reads q`highlight
    ensures -1 <= p < n && (p >= 0 ==> q[p].highlight) && forall i {:trigger q[i]} :: p < i < n ==> !q[i].highlight
  {
    if n == 0 then -1 else if q[n - 1].highlight then n - 1 else Lit(q, n - 1)
  }

  /** Where a paste goes: behind the last highlighted trace, or the last one; past a group shown closed. */
  ghost function Anchor(q: seq<Trace>): Trace
    requires q != []
    reads q`highlight, q`match_
  {
    var p := Lit(q, |q|);
    var t := q[if p < 0 then |q| - 1 else p];
    if t.kind == Begin && t.closed && t.match_ != null && t.match_.collapsed then t.match_ else t
  }

  /** A closed group can be skipped as a whole. */
  ghost predicate Skippable(q: seq<Trace>)
    reads q`match_
  {
    forall i {:trigger q[i]} :: 0 <= i < |q| && q[i].kind == Begin && q[i].closed ==> q[i].match_ != null && q[i].match_ in q
  }

  /** Pasting balanced traces into a balanced list leaves it balanced. */
  lemma PasteBalanced(q: seq<Trace>, c: seq<Trace>, p: nat)
    requires p <= |q| && Balanced(Kinds(q)) && Balanced(Kinds(c))
    ensures Balanced(Kinds(q[..p] + c + q[p..]))
  {
    KindsConcat(q[..p], q[p..]);
    assert q == q[..p] + q[p..];
    SpliceBalanced(Kinds(q[..p]), Kinds(c), Kinds(q[p..]));
    KindsConcat(q[..p], c);
    KindsConcat(q[..p] + c, q[p..]);
  }

  lemma KindsConcat(a: seq<Trace>, b: seq<Trace>)
    ensures Kinds(a + b) == Kinds(a) + Kinds(b)
  {
  }

  /** All traces there are; t_grp stays among them. */
  ghost predicate Closed(world: set<Trace>)
    reads world`grp
  {
    forall t {:trigger t.grp} :: t in world ==> t.grp == null || t.grp in world
  }

  class Traces {
    var first: Trace?
    var last: Trace?
    var total: int
    var buffer: Trace?
    var bufferlast: Trace?
    var buffercount: int
    /** The displayed traces and the cut ones. */
    ghost var list: seq<Trace>
    ghost var cut: seq<Trace>
    ghost var world: set<Trace>

    ghost predicate Valid()
      reads this, list`next, list`prev
    {
      && Distinct(list) && NextChain(list) && PrevChain(list)
      && first == Get(list, 0) && last == Get(list, |list| - 1) && total == |list|
    }

    /** Takes trace i out of the list; its own links stay. */
    method RemoveTrace(t: Trace, ghost i: nat)
      requires Valid() && i < |list| && list[i] == t
      modifies this`first, this`last, this`total, this`list, list`next, list`prev
      ensures Valid() && list == old(list)[..i] + old(list)[i + 1..]
      ensures t.next == old(t.next) && t.prev == old(t.prev)
    {
      total := total - 1;
      ghost var q := list;
      assert NextAt(q, i) && PrevAt(q, i);
      ghost var p, n := Get(q, i - 1), Get(q, i + 1);
      assert p != t && n != t && (p == n ==> p == null);
      if t == first {
        assert i == 0;
        first := t.next;
        if t.next != null {
          t.next.prev := null;
        } else {
          last := null;
        }
      } else {
        t.prev.next := t.next;
        if t.next != null {
          t.next.prev := t.prev;
        } else {
          last := t.prev;
        }
      }
      list := q[..i] + q[i + 1..];
      forall j: nat {:trigger NextBut(q, i, j)} | j < |q| ensures NextBut(q, i, j) {
        assert old(NextAt(q, j));
      }
      forall j: nat {:trigger PrevBut(q, i, j)} | j < |q| ensures PrevBut(q, i, j) {
        assert old(PrevAt(q, j));
      }
      RemovedChain(q, i, list);
    }
  
    /** The trace behind the longest balanced prefix, and whether anything is wrong. */
    method LastGood() returns (lastGood: Trace?, wrong: bool, ghost g: nat)
      requires Valid()
      ensures Longest(Kinds(list), |list|, g) && lastGood == Get(list, g) && (wrong <==> g != |list|)
    {
      var t := first;
      lastGood := t;
      var ocCnt, underflowSticky := 0, false;
      g := 0;
      ghost var k, i := Kinds(list), 0;
      while t != null
        invariant 0 <= i <= |list| && t == Get(list, i) && g <= i && lastGood == Get(list, g)
        invariant Longest(k, i, g) && ocCnt == Depth(k, i) && (underflowSticky <==> !NoUnderflow(k, i))
        decreases |list| - i
      {
        assert NextAt(list, i);
        LongestStep(k, i, g);
        if t.kind == Begin {
          ocCnt := ocCnt + 1;
        } else if t.kind == End {
          ocCnt := ocCnt - 1;
          if ocCnt == 0 && !underflowSticky {
            lastGood := t.next;
            g := i + 1;
          }
        } else if ocCnt == 0 && !underflowSticky {
          lastGood := t.next;
          g := i + 1;
        }
        if t.kind != Plain && ocCnt < 0 {
          underflowSticky := true;
        }
        t := t.next;
        i := i + 1;
      }
      assert NoUnderflow(k, i) && Depth(k, i) == 0 <==> BalancedTo(k, i);
      wrong := underflowSticky || ocCnt > 0;
    }

    /** Keeps exactly the longest prefix with balanced group marks. */
    method EnsureGroupsMatch()
      requires Valid()
      modifies this`first, this`last, this`total, this`list, list`next, list`prev
      ensures Valid() && list <= old(list) && Longest(Kinds(old(list)), |old(list)|, |list|)
      ensures Balanced(Kinds(list))
    {
      var lastGood, wrong;
      ghost var g;
      lastGood, wrong, g := LastGood();
      if wrong {
        RemoveFrom(lastGood, g);
      }
      BalancedPrefix(Kinds(old(list)), g);
      assert Kinds(list) == Kinds(old(list))[..g];
    }

    method RemoveFrom(lastGood: Trace?, ghost g: nat)
      requires Valid() && g <= |list| && lastGood == Get(list, g)
      modifies this`first, this`last, this`total, this`list, list`next, list`prev
      ensures Valid() && list == old(list)[..g]
    {
      var t := lastGood;
      ghost var q, n := list, g;
      while t != null
        invariant Valid() && g <= n <= |q| && list == q[..g] + q[n..] && t == Get(list, g)
        decreases |q| - n
      {
        assert NextAt(list, g);
        var t2 := t.next;
        ghost var left := list;
        RemoveTrace(t, g);
        assert list == q[..g] + q[n + 1..] && t2 == Get(list, g) by { DropNext(q, left, g, n); }
        n := n + 1;
        t := t2;
      }
    }

    /** Trace i, which is not an end, joins a group. */
    method Join(t: Trace, grp: Trace?, ghost q: seq<Trace>, ghost k: seq<Kind>, ghost i: nat, ghost g: int)
      requires i < |q| && q[i] == t && Distinct(q) && k == Kinds(q) && t.kind != End
      requires NoStray(k) ==> Grouped(q, k, i) && Encloses(k, g, i) && grp == Get(q, g) && -1 <= g
      modifies t`grp
      ensures t.grp == grp && (NoStray(k) ==> Grouped(q, k, i + 1))
    {
      t.grp := grp;
      if NoStray(k) {
        forall i': nat {:trigger GroupedAt(q, k, i')} | i' < i ensures GroupedAt(q, k, i') {
          assert old(GroupedAt(q, k, i'));
        }
        assert GroupedAt(q, k, i);
      }
    }

    /** Trace i is the end of the group that begins at gBegin. */
    method CloseGroup(t: Trace, gBegin: Trace, ghost q: seq<Trace>, ghost k: seq<Kind>, ghost i: nat, ghost g: int, ghost j: int)
      requires i < |q| && q[i] == t && Distinct(q) && k == Kinds(q) && t.kind == End
      requires NoStray(k) ==> Grouped(q, k, i) && Matches(k, j, i) && gBegin == q[j] && Encloses(k, g, i) && gBegin.grp == Get(q, g) && -1 <= g
      modifies t`grp, t`match_, gBegin`match_
      ensures t.grp == old(gBegin.grp) && gBegin.match_ == t && t.match_ == gBegin && (NoStray(k) ==> Grouped(q, k, i + 1))
    {
      t.grp := gBegin.grp;
      t.match_ := gBegin;
      gBegin.match_ := t;
      if NoStray(k) {
        forall i': nat {:trigger GroupedAt(q, k, i')} | i' < i ensures GroupedAt(q, k, i') {
          assert old(GroupedAt(q, k, i'));
          if k[i'] == End {
            var j' :| Matches(k, j', i') && old(q[i'].match_) == q[j'] && old(q[j'].match_) == q[i'];
            MatchUnique(k, j, i, j', i');
          }
        }
        assert GroupedAt(q, k, i);
      }
    }

    /** Matches and groups trace i from the one in front of it. */
    method UpdateTraceGroup(t: Trace, ghost q: seq<Trace>, ghost k: seq<Kind>, ghost i: nat)
      requires i < |q| && q[i] == t && Distinct(q) && PrevAt(q, i) && k == Kinds(q)
      requires Closed(world) && (forall x :: x in q ==> x in world)
      requires NoStray(k) ==> Grouped(q, k, i)
      modifies world`grp, world`match_, t`highlight
      ensures Closed(world) && (NoStray(k) ==> Grouped(q, k, i + 1))
      ensures t.highlight <==> old(t.highlight) || (t.grp != null && t.grp != t && t.grp.highlight)
      ensures t.prev == null ==> t.grp == null
      ensures t.prev != null && t.kind != End ==> t.grp == if t.prev.kind == Begin then t.prev else old(t.prev.grp)
      ensures t.prev != null && t.kind == End ==>
        var b := if t.prev.kind == Begin then t.prev else old(t.prev.grp);
        if b == null then t.grp == old(t.grp) else t.grp == old(b.grp) && t.match_ == b && b.match_ == t
    {
      ghost var g, j := -1, -1;
      if NoStray(k) {
        g, j := StepFacts(q, k, i);
      }
      if t.prev != null {
        if t.prev.kind == Begin {
          if t.kind == End {
            CloseGroup(t, t.prev, q, k, i, g, j);
          } else {
            Join(t, t.prev, q, k, i, g);
          }
        } else {
          if t.kind == End {
            var gBegin := t.prev.grp;
            if gBegin != null {
              CloseGroup(t, gBegin, q, k, i, g, j);
            }
          } else {
            Join(t, t.prev.grp, q, k, i, g);
          }
        }
      } else if t.kind != End {
        Join(t, null, q, k, i, g);
      } else {
        t.grp := null;
      }
      if t.grp != null && t.grp.highlight {
        t.highlight := true;
      }
    }

    /** The cut traces, linked apart from the list. */
    ghost predicate CutValid()
      reads this, cut`next, cut`prev
    {
      && Distinct(list + cut) && NextChain(cut) && PrevChain(cut)
      && buffer == Get(cut, 0) && bufferlast == Get(cut, |cut| - 1) && buffercount == |cut|
    }

    ghost predicate Worldly()
      reads this, world`grp
    {
      Closed(world) && (forall t :: t in list ==> t in world) && forall t :: t in cut ==> t in world
    }

    method FindAnchor() returns (t: Trace, ghost p: nat)
      requires Valid() && list != [] && Skippable(list)
      ensures t == Anchor(list) && p < |list| && list[p] == t
    {
      var tinsert: Trace?, u := null, first;
      ghost var i := 0;
      while u != null
        invariant i <= |list| && u == Get(list, i) && tinsert == Get(list, Lit(list, i))
        decreases |list| - i
      {
        assert NextAt(list, i);
        if u.highlight {
          tinsert := u;
        }
        u := u.next;
        i := i + 1;
      }
      if tinsert == null {
        tinsert := last;
      }
      assert tinsert in list;
      if tinsert.kind == Begin && tinsert.closed && tinsert.match_.collapsed {
        tinsert := tinsert.match_;
      }
      t := tinsert;
      p :| p < |list| && list[p] == t;
    }

    /** Links the cut traces into the list behind trace p. */
    method Splice(tinsert: Trace, ghost p: nat)
      requires Valid() && CutValid() && cut != [] && p < |list| && list[p] == tinsert
      modifies this`last, this`total, this`list, list`next, list`prev, cut`next, cut`prev
      ensures Valid() && list == old(list)[..p + 1] + cut + old(list)[p + 1..]
    {
      ghost var q := list;
      assert NextAt(q, p);
      DistinctParts(q, cut);
      var tinsertnext := tinsert.next;
      tinsert.next := buffer;
      buffer.prev := tinsert;
      bufferlast.next := tinsertnext;
      total := total + buffercount;
      if tinsertnext == null {
        last := bufferlast;
      } else {
        tinsertnext.prev := bufferlast;
      }
      list := q[..p + 1] + cut + q[p + 1..];
      forall j: nat {:trigger SplicedAt(q, cut, p, j)} | j < |q| ensures SplicedAt(q, cut, p, j) {
        assert old(NextAt(q, j)) && old(PrevAt(q, j));
        assert q[j] in q && q[j] !in cut && (j != p ==> q[j] != q[p]) && (p + 1 < |q| && j != p + 1 ==> q[j] != q[p + 1]);
      }
      forall j: nat {:trigger InsertedAt(q, cut, p, j)} | j < |cut| ensures InsertedAt(q, cut, p, j) {
        assert old(NextAt(cut, j)) && old(PrevAt(cut, j));
        assert cut[j] in cut && (j > 0 ==> cut[j] != cut[0]) && (j < |cut| - 1 ==> cut[j] != cut[|cut| - 1]);
        assert q[p] in q && (p + 1 < |q| ==> q[p + 1] in q);
      }
      SplicedChain(q, cut, p, list);
    }

    /** The forward pass over the list: groups and matches are worked out anew, highlighting is dropped. */
    method Regroup(ghost k: seq<Kind>)
      requires Valid() && Worldly() && k == Kinds(list)
      modifies world`grp, world`match_, list`highlight
      ensures Worldly() && (NoStray(k) ==> Grouped(list, k, |list|))
      ensures forall i {:trigger list[i]} :: 0 <= i < |list| ==> !list[i].highlight
    {
      if first == null {
        return;
      }
      var t := first;
      t.grp := null;
      ghost var i := 0;
      while t != null
        invariant i <= |list| && t == Get(list, i) && Worldly()
        invariant NoStray(k) ==> Grouped(list, k, i)
        invariant forall j {:trigger list[j]} :: 0 <= j < i ==> !list[j].highlight
        decreases |list| - i
      {
        assert NextAt(list, i) && PrevAt(list, i);
        Visit(t, k, i);
        t := t.next;
        i := i + 1;
      }
    }

    method Visit(t: Trace, ghost k: seq<Kind>, ghost i: nat)
      requires Valid() && Worldly() && i < |list| && list[i] == t && k == Kinds(list) && (NoStray(k) ==> Grouped(list, k, i))
      requires forall j {:trigger list[j]} :: 0 <= j < i ==> !list[j].highlight
      modifies world`grp, world`match_, t`highlight
      ensures Worldly() && (NoStray(k) ==> Grouped(list, k, i + 1))
      ensures forall j {:trigger list[j]} :: 0 <= j <= i ==> !list[j].highlight
    {
      assert PrevAt(list, i);
      UpdateTraceGroup(t, list, k, i);
      t.highlight := false;
    }

    /** The pasted traces, which start at p, are highlighted. */
    method Light(ghost p: nat)
      requires Valid() && p + buffercount <= |list| && buffercount > 0 && buffer == Get(list, p)
      requires forall i {:trigger list[i]} :: 0 <= i < |list| ==> !list[i].highlight
      modifies list`highlight
      ensures forall i {:trigger list[i]} :: 0 <= i < |list| ==> (list[i].highlight <==> p <= i < p + buffercount)
    {
      var count := 0;
      var t := buffer;
      while t != null
        invariant 0 <= count < buffercount && t == Get(list, p + count)
        invariant forall i {:trigger list[i]} :: 0 <= i < |list| ==> (list[i].highlight <==> p <= i < p + count)
        decreases buffercount - count
      {
        assert NextAt(list, p + count);
        t.highlight := true;
        t := t.next;
        count := count + 1;
        if count == buffercount {
          break;
        }
      }
    }

    /** The defensive relinking: it finds nothing to change. */
    method Relink()
      requires Valid()
      modifies list`prev
      ensures Valid()
    {
      var t := first;
      var prev: Trace? := null;
      ghost var i := 0;
      while t != null
        invariant i <= |list| && t == Get(list, i) && prev == Get(list, i - 1) && Valid()
        decreases |list| - i
      {
        assert NextAt(list, i) && PrevAt(list, i);
        t.prev := prev;
        forall j: nat {:trigger PrevAt(list, j)} | j < |list| ensures PrevAt(list, j) {
          assert old(PrevAt(list, j));
        }
        prev := t;
        t := t.next;
        i := i + 1;
      }
    }

    /** The cut traces become the whole list. */
    method PasteEmpty()
      requires Valid() && CutValid() && cut != [] && list == [] && total == 0
      modifies this`first, this`last, this`total, this`list, cut`prev
      ensures Valid() && list == cut
    {
      DistinctParts(list, cut);
      first := buffer;
      last := buffer;
      var t := buffer;
      var prev: Trace? := null;
      ghost var i := 0;
      while t != null
        invariant i <= |cut| && t == Get(cut, i) && prev == Get(cut, i - 1) && PrevChain(cut)
        invariant first == buffer == Get(cut, 0) && total == i && last == (if i == 0 then buffer else prev)
        decreases |cut| - i
      {
        assert NextAt(cut, i) && PrevAt(cut, i);
        t.prev := prev;
        forall j: nat {:trigger PrevAt(cut, j)} | j < |cut| ensures PrevAt(cut, j) {
          assert old(PrevAt(cut, j));
        }
        prev := t;
        last := t;
        total := total + 1;
        t := t.next;
        i := i + 1;
      }
      list := cut;
    }

    method ClearBuffer()
      modifies this`buffer, this`bufferlast, this`buffercount, this`cut
      ensures buffer == null && bufferlast == null && buffercount == 0 && cut == []
    {
      buffer, bufferlast, buffercount := null, null, 0;
      cut := [];
    }

    /** If no end is stray, every trace has its group and every closed group its match. */
    ghost predicate GroupsRight()
      reads this, list`grp, list`match_
    {
      NoStray(Kinds(list)) ==> Grouped(list, Kinds(list), |list|)
    }

    /** The traces from p up to n are highlighted and no others. */
    ghost predicate Lighted(p: int, n: int)
      reads this, list`highlight
    {
      forall i {:trigger list[i]} :: 0 <= i < |list| ==> (list[i].highlight <==> p <= i < n)
    }

    /** Groups and matches are worked out, and the new traces highlighted. */
    method Settle(ghost p: nat)
      requires Valid() && Worldly() && p + buffercount <= |list| && buffercount > 0 && buffer == Get(list, p)
      modifies list`highlight, world`grp, world`match_
      ensures Worldly() && GroupsRight() && Lighted(p, p + buffercount)
    {
      ghost var k := Kinds(list);
      Regroup(k);
      Light(p);
      assert NoStray(k) ==> Grouped(list, k, |list|);
    }

    method Finish(ghost p: nat, ghost n: nat)
      requires Valid() && Worldly() && GroupsRight() && Lighted(p, n)
      modifies this`buffer, this`bufferlast, this`buffercount, this`cut, list`prev
      ensures Valid() && Worldly() && GroupsRight() && Lighted(p, n) && cut == [] && buffer == null
    {
      ClearBuffer();
      assert GroupsRight() && Worldly();
      Relink();
    }

    method Insert() returns (ghost p: nat)
      requires Valid() && CutValid() && Skippable(list) && list != [] && cut != []
      modifies this`last, this`total, this`list, list`next, list`prev, cut`next, cut`prev
      ensures Valid() && p < |old(list)| && old(list)[p] == old(Anchor(list)) && list == old(list)[..p + 1] + cut + old(list)[p + 1..]
      ensures buffercount == |cut| && buffer == Get(list, p + 1)
    {
      var tinsert;
      tinsert, p := FindAnchor();
      Splice(tinsert, p);
    }

    method PasteInto() returns (ghost p: nat)
      requires Valid() && CutValid() && Worldly() && Skippable(list) && list != [] && cut != []
      modifies this, list`next, list`prev, list`highlight, cut`next, cut`prev, cut`highlight, world`grp, world`match_
      ensures Valid() && Worldly() && cut == [] && buffer == null && GroupsRight()
      ensures p < |old(list)| && old(list)[p] == old(Anchor(list)) && list == old(list)[..p + 1] + old(cut) + old(list)[p + 1..]
      ensures Lighted(p + 1, p + 1 + |old(cut)|)
    {
      p := Insert();
      Complete(p + 1);
    }

    /** What follows the splice in both pastes: groups, highlighting, an empty buffer. */
    method Complete(ghost p: nat)
      requires Valid() && Worldly() && p + buffercount <= |list| && buffercount > 0 && buffer == Get(list, p)
      modifies this`buffer, this`bufferlast, this`buffercount, this`cut, list`prev, list`highlight, world`grp, world`match_
      ensures Valid() && Worldly() && GroupsRight() && Lighted(p, p + old(buffercount)) && cut == [] && buffer == null
    {
      ghost var n := buffercount;
      Settle(p);
      Finish(p, p + n);
    }

    /**
      Pastes the cut traces behind the anchor. Afterwards, if the marks are balanced, every trace
      has its group and every group its match, and just the pasted traces are highlighted.
     */
    method PasteBuffer() returns (r: Trace?, ghost p: nat)
      requires Valid() && CutValid() && Worldly() && Skippable(list)
      modifies this, list`next, list`prev, list`highlight, cut`next, cut`prev, cut`highlight, world`grp, world`match_
      ensures Valid() && Worldly() && (old(cut) != [] ==> cut == [] && buffer == null && r == first)
      ensures old(cut) == [] ==> list == old(list) && r == null
      ensures old(cut) != [] && old(list) == [] ==> list == old(cut)
      ensures old(cut) != [] && old(list) != [] ==>
        && p < |old(list)| && old(list)[p] == old(Anchor(list)) && list == old(list)[..p + 1] + old(cut) + old(list)[p + 1..]
        && GroupsRight() && Lighted(p + 1, p + 1 + |old(cut)|)
    {
      p := 0;
      if buffer == null {
        return null, p;
      }
      if first == null {
        PasteEmpty();
        ClearBuffer();
      } else {
        p := PasteInto();
      }
      r := first;
    }

    /** First loop of a prepend. */
    method Reach() returns (prev: Trace)
      requires CutValid() && cut != []
      modifies this`total, cut`prev, cut`highlight
      ensures total == old(total) + |cut| && prev == cut[|cut| - 1] && PrevChain(cut)
    {
      var t := buffer;
      var prv: Trace? := null;
      ghost var i := 0;
      while t != null
        invariant 0 <= i <= |cut| && t == Get(cut, i) && prv == Get(cut, i - 1) && PrevChain(cut) && total == old(total) + i
        decreases |cut| - i
      {
        assert NextAt(cut, i) && PrevAt(cut, i);
        t.prev := prv;
        forall j: nat {:trigger PrevAt(cut, j)} | j < |cut| ensures PrevAt(cut, j) {
          assert old(PrevAt(cut, j));
        }
        prv := t;
        t.highlight := false;
        total := total + 1;
        t := t.next;
        i := i + 1;
      }
      prev := prv;
    }

    /** Links the cut traces in front of the list. */
    method Prefix()
      requires Valid() && CutValid() && cut != []
      modifies this`first, this`last, this`total, this`list, list`prev, cut`next, cut`prev, cut`highlight
      ensures Valid() && list == cut + old(list) && buffercount == |cut| && buffer == Get(list, 0)
    {
      ghost var q := list;
      PrefixDistinct(q, cut);
      var prev := Reach();
      assert NextChain(q) && NextChain(cut) && prev in cut;
      forall j: nat {:trigger PrevAt(q, j)} | j < |q| ensures PrevAt(q, j) {
        assert old(PrevAt(q, j)) && q[j] in q;
      }
      LinkFront(prev, q, cut);
      first := buffer;
      list := cut + q;
    }

    /** Links the list behind the last cut trace. */
    method LinkFront(prev: Trace, ghost q: seq<Trace>, ghost c: seq<Trace>)
      requires Distinct(c) && Distinct(q) && c != [] && prev == c[|c| - 1] && (forall t :: t in q ==> t !in c)
      requires first == Get(q, 0) && last == Get(q, |q| - 1)
      requires NextChain(c) && NextChain(q) && PrevChain(c) && PrevChain(q)
      modifies this`last, prev`next, q`prev
      ensures NextChain(c + q) && PrevChain(c + q) && last == Get(c + q, |c + q| - 1)
    {
      assert prev in c;
      LinkNext(prev, q, c);
      if first != null {
        assert q[0] in q;
        LinkPrev(prev, q, c);
      } else {
        last := prev;
        assert c + q == c;
      }
    }

    /** The last cut trace is followed by the first of the list. */
    method LinkNext(prev: Trace, ghost q: seq<Trace>, ghost c: seq<Trace>)
      requires Distinct(c) && c != [] && prev == c[|c| - 1] && first == Get(q, 0) && NextChain(c) && NextChain(q) && prev !in q
      modifies prev`next
      ensures NextChain(c + q)
    {
      prev.next := first;
      forall j: nat {:trigger NextAt(c + q, j)} | j < |c + q| ensures NextAt(c + q, j) {
        if j < |c| {
          assert old(NextAt(c, j)) && (j < |c| - 1 ==> c[j] != c[|c| - 1]);
        } else {
          assert old(NextAt(q, j - |c|)) && q[j - |c|] in q;
        }
      }
    }

    method LinkPrev(prev: Trace, ghost q: seq<Trace>, ghost c: seq<Trace>)
      requires Distinct(q) && q != [] && c != [] && prev == c[|c| - 1] && first == q[0] && PrevChain(c) && PrevChain(q)
      requires first !in c
      modifies first`prev
      ensures PrevChain(c + q)
    {
      first.prev := prev;
      forall j: nat {:trigger PrevAt(c + q, j)} | j < |c + q| ensures PrevAt(c + q, j) {
        if j < |c| {
          assert old(PrevAt(c, j)) && c[j] in c;
        } else {
          assert old(PrevAt(q, j - |c|)) && (j > |c| ==> q[j - |c|] != q[0]);
        }
      }
    }

    /** Puts the cut traces in front of the list; groups and highlighting are worked out as for a paste. */
    method PrependBuffer() returns (r: Trace?)
      requires Valid() && CutValid() && Worldly()
      modifies this, list`next, list`prev, list`highlight, cut`next, cut`prev, cut`highlight, world`grp, world`match_
      ensures Valid() && Worldly() && (old(cut) == [] ==> list == old(list) && r == null)
      ensures old(cut) != [] ==>
        && cut == [] && buffer == null && r == first && list == old(cut) + old(list)
        && GroupsRight() && Lighted(0, |old(cut)|)
    {
      if buffer == null {
        return null;
      }
      Prefix();
      Complete(0);
      r := first;
    }
  }

  lemma PrefixDistinct(q: seq<Trace>, c: seq<Trace>)
    requires Distinct(q + c)
    ensures Distinct(c + q) && Distinct(c) && Distinct(q) && forall t :: t in q ==> t !in c
  {
    DistinctParts(q, c);
    var r := c + q;
    forall i, j {:trigger r[i], r[j]} | 0 <= i < j < |r| ensures r[i] != r[j] {
      assert i < |c| ==> r[i] in c;
      assert j >= |c| ==> r[j] in q;
    }
  }

  /** The group of trace i and, for an end, its begin, told from the trace in front of it. */
  lemma StepFacts(q: seq<Trace>, k: seq<Kind>, i: nat) returns (g: int, j: int)
    requires i < |q| == |k| && k == Kinds(q) && NoStray(k) && Grouped(q, k, i)
    ensures Encloses(k, g, i) && -1 <= g < i
    ensures k[i] != End ==> Get(q, g) == if i == 0 then null else if k[i - 1] == Begin then q[i - 1] else q[i - 1].grp
    ensures k[i] == End ==> 0 < i && Matches(k, j, i) && q[j] == (if k[i - 1] == Begin then q[i - 1] else q[i - 1].grp) && q[j].grp == Get(q, g)
  {
    g, j := -1, -1;
    if i == 0 {
      assert Depth(k, 1) == Step(k[0]) && 0 <= Depth(k, 1);
    } else {
      g := GroupAt(q, k, i - 1, i);
      if k[i - 1] == Begin {
        assert 0 <= Depth(k, i - 1);
        AfterBegin(k, i, g);
        if k[i] == End { j := i - 1; } else { g := i - 1; }
      } else {
        AfterOther(k, i, g);
        if k[i] == End {
          assert Depth(k, i + 1) == Depth(k, i) - 1 && 0 <= Depth(k, i + 1);
          j := g;
          g := GroupAt(q, k, j, i);
          AroundPair(k, j, i, g);
        }
      }
    }
  }

  lemma GroupAt(q: seq<Trace>, k: seq<Kind>, i: nat, n: nat) returns (g: int)
    requires i < n <= |q| == |k| && Grouped(q, k, n)
    ensures Encloses(k, g, i) && q[i].grp == Get(q, g) && -1 <= g < i
  {
    assert GroupedAt(q, k, i);
    if q[i].grp == null && Encloses(k, -1, i) {
      g := -1;
    } else {
      g :| 0 <= g && Encloses(k, g, i) && q[i].grp == q[g];
      assert OpenUpTo(k, g, Edge(k, i));
    }
  }

  /** The links when trace i has been left out. */
  ghost predicate NextBut(q: seq<Trace>, i: nat, j: nat)
    requires j < |q|
    reads q`next
  {
    q[j].next == if j == i - 1 then Get(q, i + 1) else Get(q, j + 1)
  }

  ghost predicate PrevBut(q: seq<Trace>, i: nat, j: nat)
    requires j < |q|
    reads q`prev
  {
    q[j].prev == if j == i + 1 then Get(q, i - 1) else Get(q, j - 1)
  }

  /** The links of a list with c spliced in behind p: of its own traces, and of c's. */
  ghost predicate SplicedAt(q: seq<Trace>, c: seq<Trace>, p: nat, j: nat)
    requires j < |q|
    reads q`next, q`prev
  {
    && q[j].next == (if j == p then Get(c, 0) else Get(q, j + 1))
    && q[j].prev == (if j == p + 1 then Get(c, |c| - 1) else Get(q, j - 1))
  }

  ghost predicate InsertedAt(q: seq<Trace>, c: seq<Trace>, p: nat, j: nat)
    requires j < |c|
    reads c`next, c`prev
  {
    && c[j].next == (if j == |c| - 1 then Get(q, p + 1) else Get(c, j + 1))
    && c[j].prev == (if j == 0 then Get(q, p) else Get(c, j - 1))
  }

  lemma SplicedChain(q: seq<Trace>, c: seq<Trace>, p: nat, r: seq<Trace>)
    requires p < |q| && c != [] && Distinct(q + c) && r == q[..p + 1] + c + q[p + 1..]
    requires forall j: nat {:trigger SplicedAt(q, c, p, j)} :: j < |q| ==> SplicedAt(q, c, p, j)
    requires forall j: nat {:trigger InsertedAt(q, c, p, j)} :: j < |c| ==> InsertedAt(q, c, p, j)
    ensures Distinct(r) && NextChain(r) && PrevChain(r)
  {
    var n := |c|;
    SplicedDistinct(q, c, p, r);
    forall j: nat {:trigger NextAt(r, j)} | j < |r| ensures NextAt(r, j) {
      SplicedLinks(q, c, p, r, j);
    }
    forall j: nat {:trigger PrevAt(r, j)} | j < |r| ensures PrevAt(r, j) {
      SplicedLinks(q, c, p, r, j);
    }
  }

  lemma SplicedDistinct(q: seq<Trace>, c: seq<Trace>, p: nat, r: seq<Trace>)
    requires p < |q| && Distinct(q + c) && r == q[..p + 1] + c + q[p + 1..]
    ensures Distinct(r)
  {
    forall i, j {:trigger r[i], r[j]} | 0 <= i < j < |r| ensures r[i] != r[j] {
      var i' := if i <= p then i else if i <= p + |c| then i - p - 1 + |q| else i - |c|;
      var j' := if j <= p then j else if j <= p + |c| then j - p - 1 + |q| else j - |c|;
      assert r[i] == (q + c)[i'] && r[j] == (q + c)[j'] && i' != j';
    }
  }

  lemma SplicedLinks(q: seq<Trace>, c: seq<Trace>, p: nat, r: seq<Trace>, j: nat)
    requires p < |q| && c != [] && r == q[..p + 1] + c + q[p + 1..] && j < |r|
    requires forall j: nat {:trigger SplicedAt(q, c, p, j)} :: j < |q| ==> SplicedAt(q, c, p, j)
    requires forall j: nat {:trigger InsertedAt(q, c, p, j)} :: j < |c| ==> InsertedAt(q, c, p, j)
    ensures NextAt(r, j) && PrevAt(r, j)
  {
    if j <= p {
      assert SplicedAt(q, c, p, j);
    } else if j <= p + |c| {
      assert InsertedAt(q, c, p, j - p - 1);
    } else {
      assert SplicedAt(q, c, p, j - |c|);
    }
  }

  lemma RemovedChain(q: seq<Trace>, i: nat, r: seq<Trace>)
    requires i < |q| && Distinct(q) && r == q[..i] + q[i + 1..]
    requires forall j: nat {:trigger NextBut(q, i, j)} :: j < |q| ==> NextBut(q, i, j)
    requires forall j: nat {:trigger PrevBut(q, i, j)} :: j < |q| ==> PrevBut(q, i, j)
    ensures Distinct(r) && NextChain(r) && PrevChain(r)
  {
    forall j: nat {:trigger NextAt(r, j)} | j < |r| ensures NextAt(r, j) {
      assert NextBut(q, i, if j < i then j else j + 1);
    }
    forall j: nat {:trigger PrevAt(r, j)} | j < |r| ensures PrevAt(r, j) {
      assert PrevBut(q, i, if j < i then j else j + 1);
    }
  }
}
