/** What collecting the top-level pieces does to a list whose group marks do not balance. */
module TraceDropped {
  import opened Brackets
  import opened TraceList
  import opened TraceBlocks

  /** The depth changes in steps of one, so it passes every value in between. */
  lemma {:induction false} Crossing(k: seq<Kind>, a: nat, b: nat, d: int) returns (m: nat)
    requires a <= b <= |k| && d < Depth(k, a) && Depth(k, b) <= d
    ensures a < m <= b && Depth(k, m) == d
  {
    if Depth(k, b) == d {
      m := b;
    } else {
      m := Crossing(k, a, b - 1, d);
    }
  }

  /** A group inside a closed one is closed. */
  lemma NestedClosed(k: seq<Kind>, i: nat, j: nat)
    requires i < j < |k| && k[i] == Begin && k[j] == Begin && j <= Closing(k, i, 0)
    ensures 0 <= Closing(k, j, 0)
  {
    var e := Closing(k, i, 0);
    ClosingDepth(k, i, 0, Depth(k, i));
    ClosingDepth(k, j, 0, Depth(k, j));
    assert Depth(k, i + 1) == Depth(k, i) + 1 && Depth(k, j + 1) == Depth(k, j) + 1;
    if Depth(k, j) <= Depth(k, i) {
      var m := Crossing(k, i + 1, j, Depth(k, i));
      assert false;
    }
    var m := Crossing(k, j + 1, e + 1, Depth(k, j));
  }

  lemma FlattenFirst(x: seq<Trace>, b: seq<seq<Trace>>)
    ensures Flatten([x] + b) == x + Flatten(b)
  {
    assert ([x] + b)[1..] == b;
  }

  /** A begin whose scan finds no end. */
  predicate Unclosed(k: seq<Kind>, j: nat)
    requires j < |k|
  {
    k[j] == Begin && Closing(k, j, 0) < 0
  }

  /** The traces from i on that are in no piece. */
  function Lost(q: seq<Trace>, i: nat): seq<Trace>
    requires i <= |q|
    decreases |q| - i
  {
    if i == |q| then []
    else
      var e := BlockEnd(q, i);
      if e < 0 then [q[i]] + Lost(q, i + 1) else Lost(q, e + 1)
  }

  /** The elements of s are those of f and those of l. */
  ghost predicate Dealt<T>(f: seq<T>, l: seq<T>, s: seq<T>) {
    multiset(f) + multiset(l) == multiset(s)
  }

  lemma DealtMore<T>(x: seq<T>, f: seq<T>, l: seq<T>, s: seq<T>, y: seq<T>, t: seq<T>)
    requires Dealt(f, l, s) && t == x + s
    ensures y == x + f ==> Dealt(y, l, t)
    ensures y == x + l ==> Dealt(f, y, t)
  {
    assert multiset(x + f) == multiset(x) + multiset(f);
    assert multiset(x + l) == multiset(x) + multiset(l);
  }

  lemma PieceTaken(q: seq<Trace>, i: nat)
    requires i < |q| && 0 <= BlockEnd(q, i)
    ensures var e := BlockEnd(q, i); Flatten(Blocks(q, i)) == q[i..e + 1] + Flatten(Blocks(q, e + 1)) && Lost(q, i) == Lost(q, e + 1)
  {
    var e := BlockEnd(q, i);
    FlattenFirst(q[i..e + 1], Blocks(q, e + 1));
  }

  lemma Halves(q: seq<Trace>, i: nat, j: nat)
    requires i <= j <= |q|
    ensures q[i..] == q[i..j] + q[j..]
  {
  }

  /** Every trace is in one piece or lost. */
  lemma {:induction false} KeptOrLost(q: seq<Trace>, i: nat, f: seq<Trace>, l: seq<Trace>, s: seq<Trace>)
    requires i <= |q| && f == Flatten(Blocks(q, i)) && l == Lost(q, i) && s == q[i..]
    ensures Dealt(f, l, s)
    decreases |q| - i
  {
    if i < |q| {
      var e := BlockEnd(q, i);
      var j := if e < 0 then i + 1 else e + 1;
      var f', l', s' := Flatten(Blocks(q, j)), Lost(q, j), q[j..];
      Halves(q, i, j);
      KeptOrLost(q, j, f', l', s');
      if e < 0 {
        assert q[i..j] == [q[i]];
        DealtMore([q[i]], f', l', s', l, s);
      } else {
        PieceTaken(q, i);
        DealtMore(q[i..j], f', l', s', f, s);
      }
    }
  }

  /** A piece has no unclosed group. */
  lemma PieceClosed(q: seq<Trace>, i: nat, j: nat)
    requires i <= j < |q| && j <= BlockEnd(q, i)
    ensures !Unclosed(Kinds(q), j)
  {
    if i < j && q[j].kind == Begin {
      NestedClosed(Kinds(q), i, j);
    }
  }

  /** Only unclosed begins are lost. */
  lemma {:induction false} LostIs(q: seq<Trace>, i: nat, t: Trace) returns (j: nat)
    requires i <= |q| && t in Lost(q, i)
    ensures i <= j < |q| && q[j] == t && Unclosed(Kinds(q), j)
    decreases |q| - i
  {
    var e := BlockEnd(q, i);
    if e >= 0 {
      j := LostIs(q, e + 1, t);
    } else if t == q[i] {
      j := i;
    } else {
      assert t in Lost(q, i + 1);
      j := LostIs(q, i + 1, t);
    }
  }

  /** And all of them are. */
  lemma {:induction false} IsLost(q: seq<Trace>, i: nat, j: nat)
    requires i <= j < |q| && Unclosed(Kinds(q), j)
    ensures q[j] in Lost(q, i)
    decreases |q| - i
  {
    var e := BlockEnd(q, i);
    if e >= 0 {
      if j <= e {
        PieceClosed(q, i, j);
      }
      IsLost(q, e + 1, j);
    } else if i < j {
      IsLost(q, i + 1, j);
    }
  }

  /** Behind an unclosed begin there are only unclosed begins. */
  ghost predicate LostLast(k: seq<Kind>) {
    forall i: nat, j: nat {:trigger Unclosed(k, i), Unclosed(k, j)} :: i < j < |k| && Unclosed(k, i) ==> Unclosed(k, j)
  }

  lemma {:induction false} AllLost(q: seq<Trace>, i: nat)
    requires i <= |q| && forall j: nat {:trigger Unclosed(Kinds(q), j)} :: i <= j < |q| ==> Unclosed(Kinds(q), j)
    ensures Lost(q, i) == q[i..]
    decreases |q| - i
  {
    if i < |q| {
      assert Unclosed(Kinds(q), i);
      AllLost(q, i + 1);
      assert q[i..] == [q[i]] + q[i + 1..];
    }
  }

  /** Then what is lost is the end of the list. */
  lemma {:induction false} LostEnd(q: seq<Trace>, i: nat)
    requires i <= |q| && LostLast(Kinds(q))
    ensures |Lost(q, i)| <= |q| - i && Lost(q, i) == q[|q| - |Lost(q, i)|..]
    decreases |q| - i
  {
    if i < |q| {
      var e := BlockEnd(q, i);
      if e >= 0 {
        LostEnd(q, e + 1);
      } else {
        assert Unclosed(Kinds(q), i);
        AllLost(q, i);
      }
    }
  }

  /**
    The array behind a reorder of q: the rearranged pieces f in front, and behind them what stood
    there before. It has every trace once exactly when only unclosed begins stand behind unclosed begins.
   */
  lemma PermutedWhen(q: seq<Trace>, f: seq<Trace>)
    requires Distinct(q) && multiset(f) == multiset(Flatten(Blocks(q, 0)))
    ensures |f| <= |q|
    ensures multiset(f + q[|f|..]) == multiset(q) <==> LostLast(Kinds(q))
  {
    KeptOrLost(q, 0, Flatten(Blocks(q, 0)), Lost(q, 0), q[0..]);
    assert q[0..] == q;
    Overwritten(q, f, Lost(q, 0));
    AtEnd(q, |f|);
  }

  /** What stays behind f stands for what f leaves out. */
  lemma Overwritten<T>(q: seq<T>, f: seq<T>, l: seq<T>)
    requires multiset(f) + multiset(l) == multiset(q)
    ensures |f| + |l| == |q|
    ensures multiset(f + q[|f|..]) == multiset(q) <==> multiset(q[|f|..]) == multiset(l)
  {
    assert |multiset(f)| + |multiset(l)| == |multiset(q)|;
    var r := q[|f|..];
    assert multiset(f + r) == multiset(f) + multiset(r);
    if multiset(f) + multiset(r) == multiset(q) {
      assert multiset(r) == (multiset(f) + multiset(r)) - multiset(f);
      assert multiset(l) == (multiset(f) + multiset(l)) - multiset(f);
    }
  }

  lemma AtEnd(q: seq<Trace>, m: nat)
    requires Distinct(q) && m + |Lost(q, 0)| == |q|
    ensures multiset(q[m..]) == multiset(Lost(q, 0)) <==> LostLast(Kinds(q))
  {
    if LostLast(Kinds(q)) {
      LostEnd(q, 0);
    }
    if multiset(q[m..]) == multiset(Lost(q, 0)) {
      OnlyAtEnd(q, m);
    }
  }

  /** A trace of the tail stands there. */
  lemma InTail(q: seq<Trace>, m: nat, i: nat)
    requires Distinct(q) && m <= |q| && i < |q|
    ensures q[i] in q[m..] <==> m <= i
  {
    var r := q[m..];
    if q[i] in r {
      var p :| 0 <= p < |r| && r[p] == q[i];
      assert q[m + p] == q[i];
    }
    if m <= i {
      assert r[i - m] == q[i];
    }
  }

  lemma OnlyAtEnd(q: seq<Trace>, m: nat)
    requires Distinct(q) && m <= |q| && multiset(q[m..]) == multiset(Lost(q, 0))
    ensures LostLast(Kinds(q))
  {
    var k := Kinds(q);
    forall i: nat, j: nat {:trigger Unclosed(k, i), Unclosed(k, j)} | i < j < |k| && Unclosed(k, i) ensures Unclosed(k, j) {
      OneAtEnd(q, m, i, j);
    }
  }

  lemma OneAtEnd(q: seq<Trace>, m: nat, i: nat, j: nat)
    requires Distinct(q) && m <= |q| && multiset(q[m..]) == multiset(Lost(q, 0))
    requires i < j < |q| && Unclosed(Kinds(q), i)
    ensures Unclosed(Kinds(q), j)
  {
    IsLost(q, 0, i);
    SameElement(Lost(q, 0), q[m..], q[i]);
    InTail(q, m, i);
    InTail(q, m, j);
    SameElement(Lost(q, 0), q[m..], q[j]);
    var j' := LostIs(q, 0, q[j]);
  }

  lemma SameElement<T>(l: seq<T>, r: seq<T>, t: T)
    requires multiset(l) == multiset(r)
    ensures t in l <==> t in r
  {
    assert t in l <==> t in multiset(l);
    assert t in r <==> t in multiset(r);
  }

  /** With a trace behind an unclosed begin the begin is gone and the other is there twice. */
  lemma BeginLost(t: Trace, a: Trace)
    requires t.kind == Begin && a.kind == Plain
    ensures Flatten(Blocks([t, a], 0)) == [a] && [a] + [t, a][1..] == [a, a]
  {
    var q := [t, a];
    var k := Kinds(q);
    assert Closing(k, 2, 1) == -1 && Closing(k, 1, 1) == -1 && Closing(k, 0, 0) == -1;
    assert Blocks(q, 2) == [] && q[1..2] == [a];
    assert Blocks(q, 1) == [[a]] + Blocks(q, 2);
    FlattenFirst([a], []);
  }
}
