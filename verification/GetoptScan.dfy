/** What the scan of the arguments means: a stable partition that a second run leaves alone. */
module GetoptScan {
  import opened Getopt

  /* ---------- what is reported ---------- */

  lemma {:induction false} IndexIs(pre: string, c: char, post: string)
    requires c !in pre
    ensures IndexOf(pre + [c] + post, c) == |pre|
  {
    if pre == "" {
      assert pre + [c] + post == [c] + post;
    } else {
      assert (pre + [c] + post)[1..] == pre[1..] + [c] + post;
      IndexIs(pre[1..], c, post);
    }
  }

  /** The first report of a scan at character c, and what is scanned after it. */
  ghost predicate Reports(opts: string, s: seq<string>, next: string, e: Event, rest: Scan)
    requires next != "" ==> s != []
  {
    ScanFrom(opts, s, next) == Report(e, rest)
  }

  /** A character that is not declared gives ? with the character in optopt. */
  lemma UnknownReported(opts: string, s: seq<string>, c: char, more: string)
    requires s != [] && (c == ':' || c !in opts)
    ensures Reports(opts, s, [c] + more, Event('?', None, Some(c)), if more != "" then ScanFrom(opts, s, more) else Taken(s[..1], ScanFrom(opts, s[1..], "")))
  {
    assert ([c] + more)[1..] == more;
    assert KindOf(opts, c) == Unknown;
  }

  /** One declared without : gives itself. */
  lemma PlainReported(opts: string, pre: string, post: string, s: seq<string>, c: char, more: string)
    requires s != [] && opts == pre + [c] + post && c !in pre && c != ':' && (post == "" || post[0] != ':')
    ensures Reports(opts, s, [c] + more, Event(c, None, None), if more != "" then ScanFrom(opts, s, more) else Taken(s[..1], ScanFrom(opts, s[1..], "")))
  {
    IndexIs(pre, c, post);
    assert post != "" ==> opts[|pre| + 1] == post[0];
    assert ([c] + more)[1..] == more && KindOf(opts, c) == Plain;
  }

  /** One declared with :: takes what follows it in its element, if anything does. */
  lemma OptionalReported(opts: string, pre: string, post: string, s: seq<string>, c: char, more: string)
    requires s != [] && opts == pre + [c] + post && c !in pre && c != ':' && |post| >= 2 && post[0] == ':' && post[1] == ':'
    ensures Reports(opts, s, [c] + more, Event(c, if more == "" then None else Some(more), None), Taken(s[..1], ScanFrom(opts, s[1..], "")))
  {
    IndexIs(pre, c, post);
    assert opts[|pre| + 1] == post[0] && opts[|pre| + 2] == post[1];
    assert ([c] + more)[1..] == more && KindOf(opts, c) == Optional;
  }

  /**
    One declared with a single : takes what follows it in its element, or else the next element. When
    there is none, ? or, if optstring begins with it, : is given, with the character in optopt.
   */
  lemma RequiredReported(opts: string, pre: string, post: string, s: seq<string>, c: char, more: string)
    requires s != [] && opts == pre + [c] + post && c !in pre && c != ':'
    requires post != "" && post[0] == ':' && (|post| == 1 || post[1] != ':')
    ensures more != "" ==> Reports(opts, s, [c] + more, Event(c, Some(more), None), Taken(s[..1], ScanFrom(opts, s[1..], "")))
    ensures more == "" && |s| >= 2 ==> Reports(opts, s, [c], Event(c, Some(s[1]), None), Taken(s[..2], ScanFrom(opts, s[2..], "")))
    ensures more == "" && |s| == 1 ==>
      Reports(opts, s, [c], Event(if opts[0] == ':' then ':' else '?', None, Some(c)), Taken(s, ScanFrom(opts, [], "")))
  {
    IndexIs(pre, c, post);
    assert opts[|pre| + 1] == ':' && (|post| >= 2 ==> opts[|pre| + 2] == post[1]);
    assert ([c] + more)[1..] == more && KindOf(opts, c) == Required;
    assert [c][1..] == "" && ([c] + "" == [c]);
    if |s| == 1 {
      assert s[..1] == s && s[1..] == [];
    }
  }

  /** Before "--" only what does not begin with -, or is just that, is left over. */
  lemma LeftOver(opts: string, s: seq<string>)
    requires "--" !in s
    ensures forall x {:trigger x in ScanFrom(opts, s, "").rest} :: x in ScanFrom(opts, s, "").rest ==> x == "" || x == "-" || x[0] != '-'
  {
    NotDashed(opts, s, "");
    RestPlain(opts, s, "");
    var r := ScanFrom(opts, s, "").rest;
    forall x {:trigger x in r} | x in r ensures x == "" || x == "-" || x[0] != '-' {
      var i :| 0 <= i < |r| && r[i] == x;
      assert NonOption(r[i]);
    }
  }

  lemma {:induction false} NotDashed(opts: string, s: seq<string>, next: string)
    requires (next != "" ==> s != []) && "--" !in s
    ensures !Dashed(opts, s, next)
    decreases |s|, if next != "" then |next| else if s == [] then 0 else |s[0]|
  {
    if next != "" {
      var d := Decode(opts, s, next);
      if d.more != "" {
        NotDashed(opts, s, d.more);
      } else {
        NotDashed(opts, s[d.taken..], "");
      }
    } else if s != [] {
      if NonOption(s[0]) {
        NotDashed(opts, s[1..], "");
      } else {
        NotDashed(opts, s, s[0][1..]);
      }
    }
  }

  /** An element that begins with - and goes on is an option, not left over, and its characters are read one by one. */
  lemma OptionTaken(opts: string, s: seq<string>, more: string)
    requires s != [] && s[0] == "-" + more && more != "" && more != "-"
    ensures ScanFrom(opts, s, "") == ScanFrom(opts, s, more)
  {
    assert s[0][1..] == more;
    assert s[0] != "--" by { assert s[0][1..] != "-"; assert "--"[1..] == "-"; }
  }

  /** Any other element but "--" is left over; "--" ends the options. */
  lemma OtherLeft(opts: string, s: seq<string>)
    requires s != []
    ensures s[0] == "--" ==> ScanFrom(opts, s, "") == Scan(["--"], s[1..], [])
    ensures s[0] == "" || s[0] == "-" || s[0][0] != '-' ==>
      var t := ScanFrom(opts, s[1..], ""); ScanFrom(opts, s, "") == Scan(t.opt, [s[0]] + t.rest, t.events)
  {
  }

  /* ---------- the two groups ---------- */

  /** s is x and y merged, each in its own order. */
  ghost predicate Interleaved(x: seq<string>, y: seq<string>, s: seq<string>)
    decreases s
  {
    if s == [] then x == [] && y == []
    else
      || (x != [] && x[0] == s[0] && Interleaved(x[1..], y, s[1..]))
      || (y != [] && y[0] == s[0] && Interleaved(x, y[1..], s[1..]))
  }

  lemma {:induction false} InterleavedAlone(s: seq<string>)
    ensures Interleaved([], s, s)
  {
    if s != [] {
      InterleavedAlone(s[1..]);
    }
  }

  lemma {:induction false} InterleavedTaken(u: seq<string>, x: seq<string>, y: seq<string>, s: seq<string>)
    requires Interleaved(x, y, s)
    ensures Interleaved(u + x, y, u + s)
  {
    if u == [] {
      assert u + x == x && u + s == s;
    } else {
      InterleavedTaken(u[1..], x, y, s);
      assert (u + x)[1..] == u[1..] + x && (u + s)[1..] == u[1..] + s;
    }
  }

  /** The options with their arguments, and the other elements, keep their original order. */
  lemma {:induction false} ScanStable(opts: string, s: seq<string>, next: string)
    requires next != "" ==> s != []
    ensures var t := ScanFrom(opts, s, next); Interleaved(t.opt, t.rest, s)
    decreases |s|, if next != "" then |next| else if s == [] then 0 else |s[0]|
  {
    if next != "" {
      var d := Decode(opts, s, next);
      if d.more != "" {
        ScanStable(opts, s, d.more);
      } else {
        ScanStable(opts, s[d.taken..], "");
        var r := ScanFrom(opts, s[d.taken..], "");
        InterleavedTaken(s[..d.taken], r.opt, r.rest, s[d.taken..]);
        assert s == s[..d.taken] + s[d.taken..];
      }
    } else if s != [] {
      if s[0] == "--" {
        InterleavedAlone(s[1..]);
      } else if NonOption(s[0]) {
        ScanStable(opts, s[1..], "");
        var r := ScanFrom(opts, s[1..], "");
        assert ([s[0]] + r.rest)[1..] == r.rest;
      } else {
        ScanStable(opts, s, s[0][1..]);
      }
    }
  }

  ghost predicate AllNonOptions(s: seq<string>) {
    forall i :: 0 <= i < |s| ==> NonOption(s[i])
  }

  /** The scan is ended by "--". */
  ghost predicate Dashed(opts: string, s: seq<string>, next: string)
    requires next != "" ==> s != []
    decreases |s|, if next != "" then |next| else if s == [] then 0 else |s[0]|
  {
    if next != "" then
      var d := Decode(opts, s, next);
      if d.more != "" then Dashed(opts, s, d.more) else Dashed(opts, s[d.taken..], "")
    else if s == [] then false
    else if s[0] == "--" then true
    else if NonOption(s[0]) then Dashed(opts, s[1..], "")
    else Dashed(opts, s, s[0][1..])
  }

  /** The scan ends with an option whose required argument is missing. */
  ghost predicate Starved(opts: string, s: seq<string>, next: string)
    requires next != "" ==> s != []
    decreases |s|, if next != "" then |next| else if s == [] then 0 else |s[0]|
  {
    if next != "" then
      var d := Decode(opts, s, next);
      if d.more != "" then Starved(opts, s, d.more)
      else (|s| == 1 && |next| == 1 && KindOf(opts, next[0]) == Required) || Starved(opts, s[d.taken..], "")
    else if s == [] || s[0] == "--" then false
    else if NonOption(s[0]) then Starved(opts, s[1..], "")
    else Starved(opts, s, s[0][1..])
  }

  /** Without "--" only non-options are left over; a scan with "--" is not starved. */
  lemma {:induction false} RestPlain(opts: string, s: seq<string>, next: string)
    requires next != "" ==> s != []
    ensures Dashed(opts, s, next) ==> !Starved(opts, s, next)
    ensures !Dashed(opts, s, next) ==> AllNonOptions(ScanFrom(opts, s, next).rest)
    decreases |s|, if next != "" then |next| else if s == [] then 0 else |s[0]|
  {
    if next != "" {
      var d := Decode(opts, s, next);
      if d.more != "" {
        RestPlain(opts, s, d.more);
      } else {
        RestPlain(opts, s[d.taken..], "");
      }
    } else if s != [] && s[0] != "--" {
      if NonOption(s[0]) {
        RestPlain(opts, s[1..], "");
      } else {
        RestPlain(opts, s, s[0][1..]);
      }
    }
  }

  lemma {:induction false} ScanPlain(opts: string, r: seq<string>)
    requires AllNonOptions(r)
    ensures ScanFrom(opts, r, "") == Scan([], r, [])
  {
    if r != [] {
      assert NonOption(r[0]) && r[0] != "--";
      ScanPlain(opts, r[1..]);
    }
  }

  /** An option character that ends its element reads the same in x, which has the same elements for it. */
  lemma EndsAlike(opts: string, s: seq<string>, next: string, x: seq<string>, rest: seq<string>)
    requires next != "" && s != [] && Decode(opts, s, next).more == ""
    requires !(|s| == 1 && |next| == 1 && KindOf(opts, next[0]) == Required)
    requires x == s[..Decode(opts, s, next).taken] + rest
    ensures var d := Decode(opts, s, next); ScanFrom(opts, x, next) == Report(d.event, Taken(s[..d.taken], ScanFrom(opts, rest, "")))
  {
    var d := Decode(opts, s, next);
    assert x[0] == s[0] && (d.taken == 2 ==> x[1] == s[1]);
    assert Decode(opts, x, next) == d;
    assert x[..d.taken] == s[..d.taken] && x[d.taken..] == rest;
  }

  /** Scanning the options again, with r after them. */
  lemma {:induction false} RescanWith(opts: string, s: seq<string>, next: string, r: seq<string>)
    requires next != "" ==> s != []
    requires !Starved(opts, s, next) && (Dashed(opts, s, next) || AllNonOptions(r))
    ensures var t := ScanFrom(opts, s, next);
            (next != "" ==> t.opt != [] && t.opt[0] == s[0]) && ScanFrom(opts, t.opt + r, next) == Scan(t.opt, r, t.events)
    decreases |s|, if next != "" then |next| else if s == [] then 0 else |s[0]|
  {
    var t := ScanFrom(opts, s, next);
    if next != "" {
      var d := Decode(opts, s, next);
      if d.more != "" {
        RescanWith(opts, s, d.more, r);
        assert Decode(opts, t.opt + r, next) == d;
      } else {
        RescanWith(opts, s[d.taken..], "", r);
        var u := ScanFrom(opts, s[d.taken..], "");
        assert t.opt + r == s[..d.taken] + (u.opt + r);
        EndsAlike(opts, s, next, t.opt + r, u.opt + r);
      }
    } else if s == [] {
      ScanPlain(opts, r);
      assert t.opt + r == r;
    } else if s[0] == "--" {
      assert (["--"] + r)[1..] == r;
    } else if NonOption(s[0]) {
      RescanWith(opts, s[1..], "", r);
    } else {
      RescanWith(opts, s, s[0][1..], r);
    }
  }

  lemma TakesFirst(opts: string, s: seq<string>, next: string, r: seq<string>)
    requires |s| == 1 && next != "" && Decode(opts, s, next).more == "" && Starved(opts, s, next) && AllNonOptions(r) && r != []
    ensures ScanFrom(opts, s, next).opt == s && ScanFrom(opts, s + r, next).opt == s + r[..1]
  {
    var d := Decode(opts, s, next);
    assert s[1..] == [] && s[..1] == s && ScanFrom(opts, [], "") == Scan([], [], []);
    assert (s + r)[2..] == r[1..] && (s + r)[..2] == s + r[..1];
    ScanPlain(opts, r[1..]);
  }

  /** An option without its argument takes the first element of r instead. */
  lemma {:induction false} RescanStarved(opts: string, s: seq<string>, next: string, r: seq<string>)
    requires next != "" ==> s != []
    requires Starved(opts, s, next) && AllNonOptions(r) && r != []
    ensures var t := ScanFrom(opts, s, next);
            (next != "" ==> t.opt != [] && t.opt[0] == s[0]) && ScanFrom(opts, t.opt + r, next).opt == t.opt + r[..1]
    decreases |s|, if next != "" then |next| else if s == [] then 0 else |s[0]|
  {
    var t := ScanFrom(opts, s, next);
    if next != "" {
      var d := Decode(opts, s, next);
      if d.more != "" {
        RescanStarved(opts, s, d.more, r);
        assert Decode(opts, t.opt + r, next) == d;
      } else if |s| == 1 {
        TakesFirst(opts, s, next, r);
      } else {
        RescanStarved(opts, s[d.taken..], "", r);
        var u := ScanFrom(opts, s[d.taken..], "");
        assert t.opt + r == s[..d.taken] + (u.opt + r);
        EndsAlike(opts, s, next, t.opt + r, u.opt + r);
        assert s[..d.taken] + (u.opt + r[..1]) == t.opt + r[..1];
      }
    } else if NonOption(s[0]) {
      RescanStarved(opts, s[1..], "", r);
    } else {
      RescanStarved(opts, s, s[0][1..], r);
    }
  }

  /**
    A second run over the permuted arguments reports the same and moves nothing, exactly when no
    option was left without its required argument while there were non-options to take instead.
   */
  lemma Rescan(opts: string, s: seq<string>)
    ensures var t := ScanFrom(opts, s, "");
            ScanFrom(opts, t.opt + t.rest, "") == t <==> !Starved(opts, s, "") || t.rest == []
  {
    var t := ScanFrom(opts, s, "");
    RestPlain(opts, s, "");
    if !Starved(opts, s, "") {
      RescanWith(opts, s, "", t.rest);
    } else if t.rest != [] {
      RescanStarved(opts, s, "", t.rest);
      assert |ScanFrom(opts, t.opt + t.rest, "").opt| == |t.opt| + 1;
    } else {
      StarvedAlone(opts, s, "");
      assert t.opt + t.rest == s;
    }
  }

  /** Without non-options everything stays where it is. */
  lemma {:induction false} StarvedAlone(opts: string, s: seq<string>, next: string)
    requires (next != "" ==> s != []) && ScanFrom(opts, s, next).rest == []
    ensures ScanFrom(opts, s, next).opt == s
    decreases |s|, if next != "" then |next| else if s == [] then 0 else |s[0]|
  {
    if next != "" {
      var d := Decode(opts, s, next);
      if d.more != "" {
        StarvedAlone(opts, s, d.more);
      } else {
        StarvedAlone(opts, s[d.taken..], "");
        assert s == s[..d.taken] + s[d.taken..];
      }
    } else if s != [] && s[0] != "--" {
      StarvedAlone(opts, s, s[0][1..]);
    } else if s != [] {
      assert s == ["--"] + s[1..];
    }
  }

  /** With no required arguments, the options are just the elements that look like options. */
  lemma {:induction false} ScanFilters(opts: string, s: seq<string>, next: string)
    requires (next != "" ==> s != []) && "--" !in s && (forall c: char :: KindOf(opts, c) != Required)
    ensures next == "" ==> ScanFrom(opts, s, "").opt == Filter(s, false) && ScanFrom(opts, s, "").rest == Filter(s, true)
    ensures next != "" ==> ScanFrom(opts, s, next).opt == s[..1] + Filter(s[1..], false) && ScanFrom(opts, s, next).rest == Filter(s[1..], true)
    decreases |s|, if next != "" then |next| else if s == [] then 0 else |s[0]|
  {
    if next != "" {
      var d := Decode(opts, s, next);
      if d.more != "" {
        ScanFilters(opts, s, d.more);
      } else {
        assert d.taken == 1;
        ScanFilters(opts, s[1..], "");
      }
    } else if s != [] {
      if NonOption(s[0]) {
        ScanFilters(opts, s[1..], "");
      } else {
        ScanFilters(opts, s, s[0][1..]);
      }
    }
  }

  /** The elements that do, or do not, look like options. */
  function Filter(s: seq<string>, nonOption: bool): seq<string> {
    if s == [] then []
    else if NonOption(s[0]) == nonOption then s[..1] + Filter(s[1..], nonOption)
    else Filter(s[1..], nonOption)
  }

  /** What is reported when the argument of c is missing, and when it is x. */
  function Missing(c: char): Event {
    Event('?', None, Some(c))
  }

  function Given(c: char, x: string): Event {
    Event(c, Some(x), None)
  }

  /** A missing argument in the first scan is found among the other elements in the second. */
  lemma RescanDiffers(opts: string, s: seq<string>)
    requires opts == "a:" && s == ["x", "-a"]
    ensures var t := ScanFrom(opts, s, "");
            && t == Scan(["-a"], ["x"], [Missing('a')])
            && ScanFrom(opts, t.opt + t.rest, "") == Scan(["-a", "x"], [], [Given('a', "x")])
  {
    assert KindOf(opts, 'a') == Required;
    var o: string, x: string := "-a", "x";
    var l: seq<string> := [o];
    assert s[1..] == [o] && o[1..] == "a" && "a"[1..] == "" && l[1..] == [];
    assert Decode(opts, [o], "a") == Decoded(Missing('a'), 1, "");
    assert ScanFrom(opts, [o], "a") == Scan([o], [], [Missing('a')]);
    assert ScanFrom(opts, [o], "") == ScanFrom(opts, [o], "a");
    var u: seq<string> := l + [x];
    assert u[2..] == [] && u[..2] == u && u[0] == o && u[1] == x;
    assert Decode(opts, u, "a") == Decoded(Given('a', x), 2, "");
    assert ScanFrom(opts, u, "a") == Scan(u, [], [Given('a', x)]);
  }
}
