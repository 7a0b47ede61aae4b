/** getopt with short options in PERMUTE mode: options are moved to the front of argv as they are met. */
module Getopt {
  datatype Option<+T> = None | Some(value: T)

  /** What one call reports: the returned character, optarg, and optopt when it is set. */
  datatype Event = Event(c: char, arg: Option<string>, optopt: Option<char>)

  datatype Kind = Unknown | Plain | Optional | Required

  /** Where c first stands in s, or the length of s. */
  function IndexOf(s: string, c: char): (k: nat)
    ensures k <= |s| && (k < |s| ==> s[k] == c) && forall i :: 0 <= i < k ==> s[i] != c
  {
    if s == "" || s[0] == c then 0 else 1 + IndexOf(s[1..], c)
  }

  /** How optstring declares c. */
  function KindOf(opts: string, c: char): Kind {
    var k := IndexOf(opts, c);
    if k == |opts| || c == ':' then Unknown
    else if k + 1 < |opts| && opts[k + 1] == ':' then
      if k + 2 < |opts| && opts[k + 2] == ':' then Optional else Required
    else Plain
  }

  /** Neither a leading mode character nor the W; form, which belongs to long options. */
  predicate Permuting(opts: string) {
    && (opts != "" ==> opts[0] != '-' && opts[0] != '+')
    && (var k := IndexOf(opts, 'W'); k + 1 < |opts| ==> opts[k + 1] != ';')
  }

  predicate NonOption(s: string) {
    s == "" || s[0] != '-' || |s| == 1
  }

  /* ---------- what a run means, read off the unpermuted arguments ---------- */

  /** The elements that belong to options, the others, and what the calls report. */
  datatype Scan = Scan(opt: seq<string>, rest: seq<string>, events: seq<Event>)

  function Report(e: Event, s: Scan): Scan {
    s.(events := [e] + s.events)
  }

  function Taken(x: seq<string>, s: Scan): Scan {
    s.(opt := x + s.opt)
  }

  /** The scan of s; a nonempty next is the unread part of s[0]. */
  function ScanFrom(opts: string, s: seq<string>, next: string): Scan
    requires next != "" ==> s != []
    decreases |s|, if next != "" then |next| else if s == [] then 0 else |s[0]|
  {
    if next != "" then
      var d := Decode(opts, s, next);
      Report(d.event, if d.more != "" then ScanFrom(opts, s, d.more) else Taken(s[..d.taken], ScanFrom(opts, s[d.taken..], "")))
    else if s == [] then Scan([], [], [])
    else if s[0] == "--" then Scan(["--"], s[1..], [])
    else if NonOption(s[0]) then
      var r := ScanFrom(opts, s[1..], ""); r.(rest := [s[0]] + r.rest)
    else ScanFrom(opts, s, s[0][1..])
  }

  /** What one option character reports, how many elements it ends, and what is left to read of the current one. */
  datatype Decoded = Decoded(event: Event, taken: nat, more: string)

  function Decode(opts: string, s: seq<string>, next: string): (d: Decoded)
    requires next != "" && s != []
    ensures d.taken <= |s| && |d.more| < |next| && (d.taken == 0 <==> d.more != "")
  {
    var c, more := next[0], next[1..];
    match KindOf(opts, c)
    case Unknown => Decoded(Event('?', None, Some(c)), if more == "" then 1 else 0, more)
    case Plain => Decoded(Event(c, None, None), if more == "" then 1 else 0, more)
    case Optional => Decoded(Event(c, if more == "" then None else Some(more), None), 1, "")
    case Required =>
      if more != "" then Decoded(Event(c, Some(more), None), 1, "")
      else if |s| == 1 then Decoded(Event(if opts[0] == ':' then ':' else '?', None, Some(c)), 1, "")
      else Decoded(Event(c, Some(s[1]), None), 2, "")
  }

  /* ---------- the state between calls ---------- */

  /** The skipped non-options are [first, last); scanning stands at optind, in the middle of it when next is not empty. */
  datatype Pos = Pos(first: int, last: int, optind: int, next: string) {
    predicate Ok(n: nat) {
      1 <= first <= last <= optind <= n && (next != "" ==> optind < n)
    }
  }

  /** The whole scan: what has been moved and skipped so far and what is ahead. */
  function Total(a: seq<string>, opts: string, p: Pos): Scan
    requires p.Ok(|a|)
  {
    var s := ScanFrom(opts, a[p.optind..], p.next);
    Scan(a[1..p.first] + a[p.last..p.optind] + s.opt, a[p.first..p.last] + s.rest, s.events)
  }

  /** Where slot n of an array with blocks [b, m) and [m, t) exchanged comes from. */
  function RotatedFrom(n: int, b: int, m: int, t: int): int {
    if b <= n < b + (t - m) then n - b + m else if b + (t - m) <= n < t then n - (t - m) else n
  }

  /** a with its blocks [b, m) and [m, t) exchanged. */
  function Rotated(a: seq<string>, b: int, m: int, t: int): (r: seq<string>)
    requires 0 <= b <= m <= t <= |a|
    ensures |r| == |a|
  {
    a[..b] + a[m..t] + a[b..m] + a[t..]
  }

  lemma RotatedAt(a: seq<string>, b: int, m: int, t: int, n: nat)
    requires 0 <= b <= m <= t <= |a| && n < |a|
    ensures Rotated(a, b, m, t)[n] == a[RotatedFrom(n, b, m, t)]
  {
  }

  /** Where slot n comes from when blocks of length len at i and j are swapped. */
  function SwappedFrom(n: int, i: int, j: int, len: int): int {
    if i <= n < i + len then n - i + j else if j <= n < j + len then n - j + i else n
  }

  ghost predicate BlocksSwapped(a: seq<string>, a': seq<string>, i: int, j: int, len: int)
    requires 0 <= i && 0 <= len && i + len <= j && j + len <= |a|
  {
    |a'| == |a| && forall n {:trigger a'[n]} :: 0 <= n < |a| ==> a'[n] == a[SwappedFrom(n, i, j, len)]
  }

  method SwapBlocks(argv: array<string>, i: int, j: int, len: int)
    requires 0 <= i && 0 <= len && i + len <= j && j + len <= argv.Length
    modifies argv
    ensures BlocksSwapped(old(argv[..]), argv[..], i, j, len)
  {
    for k := 0 to len
      invariant forall n {:trigger argv[n]} :: 0 <= n < argv.Length ==> argv[n] == old(argv[..])[SwappedFrom(n, i, j, k)]
    {
      var tem := argv[i + k];
      argv[i + k] := argv[j + k];
      argv[j + k] := tem;
    }
  }

  /** A block swap at either end leaves a smaller exchange to do. */
  lemma ExchangeLow(a: seq<string>, a': seq<string>, b: int, m: int, t: int, u: int)
    requires 0 <= b < m < u < t <= |a| && u == t - (m - b) && BlocksSwapped(a, a', b, u, m - b)
    ensures Rotated(a', b, m, u) == Rotated(a, b, m, t)
  {
    var x, y := Rotated(a', b, m, u), Rotated(a, b, m, t);
    forall n {:trigger x[n]} | 0 <= n < |a| ensures x[n] == y[n] {
      ExchangeLowAt(a, a', b, m, t, u, n);
    }
    assert x == y;
  }

  lemma ExchangeLowAt(a: seq<string>, a': seq<string>, b: int, m: int, t: int, u: int, n: nat)
    requires 0 <= b < m < u < t <= |a| && u == t - (m - b) && BlocksSwapped(a, a', b, u, m - b) && n < |a|
    ensures Rotated(a', b, m, u)[n] == Rotated(a, b, m, t)[n]
  {
    RotatedAt(a, b, m, t, n);
    RotatedAt(a', b, m, u, n);
  }

  lemma ExchangeHigh(a: seq<string>, a': seq<string>, b: int, m: int, t: int, u: int)
    requires 0 <= b < u <= m < t <= |a| && u == b + (t - m) && BlocksSwapped(a, a', b, m, t - m)
    ensures Rotated(a', u, m, t) == Rotated(a, b, m, t)
  {
    var x, y := Rotated(a', u, m, t), Rotated(a, b, m, t);
    forall n {:trigger x[n]} | 0 <= n < |a| ensures x[n] == y[n] {
      ExchangeHighAt(a, a', b, m, t, u, n);
    }
    assert x == y;
  }

  lemma ExchangeHighAt(a: seq<string>, a': seq<string>, b: int, m: int, t: int, u: int, n: nat)
    requires 0 <= b < u <= m < t <= |a| && u == b + (t - m) && BlocksSwapped(a, a', b, m, t - m) && n < |a|
    ensures Rotated(a', u, m, t)[n] == Rotated(a, b, m, t)[n]
  {
    RotatedAt(a, b, m, t, n);
    RotatedAt(a', u, m, t, n);
  }

  /** Swaps the shorter block with the far end of the longer one; the rest is a smaller exchange. */
  method ExchangeShorter(argv: array<string>, bottom: int, middle: int, top: int) returns (b: int, t: int)
    requires 0 <= bottom < middle < top <= argv.Length
    modifies argv
    ensures bottom <= b <= middle <= t <= top && t - b < top - bottom
    ensures Rotated(argv[..], b, middle, t) == Rotated(old(argv[..]), bottom, middle, top)
  {
    if top - middle > middle - bottom {
      var len := middle - bottom;
      b, t := bottom, top - len;
      SwapBlocks(argv, bottom, t, len);
      ExchangeLow(old(argv[..]), argv[..], bottom, middle, top, t);
    } else {
      var len := top - middle;
      b, t := bottom + len, top;
      SwapBlocks(argv, bottom, middle, len);
      ExchangeHigh(old(argv[..]), argv[..], bottom, middle, top, b);
    }
  }

  lemma RotatedNothing(a: seq<string>, b: int, m: int, t: int)
    requires 0 <= b <= m <= t <= |a| && (b == m || m == t)
    ensures Rotated(a, b, m, t) == a
  {
  }

  /* ---------- the scan seen from one step ---------- */

  /** Exchanging skipped non-options with the options after them changes nothing in the whole scan. */
  lemma SettleTotal(a: seq<string>, opts: string, p: Pos)
    requires p.Ok(|a|) && p.next == "" && 1 <= |a|
    ensures p.first == p.last ==> Total(a, opts, Pos(p.optind, p.optind, p.optind, "")) == Total(a, opts, p)
    ensures var f := p.first + (p.optind - p.last); Total(Rotated(a, p.first, p.last, p.optind), opts, Pos(f, p.optind, p.optind, "")) == Total(a, opts, p)
  {
    var r, f := Rotated(a, p.first, p.last, p.optind), p.first + (p.optind - p.last);
    assert r[p.optind..] == a[p.optind..];
    assert r[1..f] + r[p.optind..p.optind] == a[1..p.first] + a[p.last..p.optind];
    assert r[f..p.optind] == a[p.first..p.last];
    if p.first == p.last {
      assert a[1..p.optind] + [] == a[1..p.first] + a[p.last..p.optind];
    }
  }

  lemma SkipTotal(a: seq<string>, opts: string, first: int, k: int)
    requires 1 <= first <= k < |a| && a[k] != "--" && NonOption(a[k])
    ensures Total(a, opts, Pos(first, k + 1, k + 1, "")) == Total(a, opts, Pos(first, k, k, ""))
  {
    assert a[k..][1..] == a[k + 1..];
    assert a[first..k + 1] == a[first..k] + [a[k]];
    assert a[k..k] == [] && a[k + 1..k + 1] == [];
  }

  /** argv holds the options and then the others, and optind is where the others start. */
  ghost predicate Finished(a: seq<string>, optind: int, t: Scan) {
    1 <= |a| && t.events == [] && a[1..] == t.opt + t.rest && optind == 1 + |t.opt|
  }

  lemma EndTotal(a: seq<string>, opts: string, first: int, t: Scan)
    requires 1 <= first <= |a| && t == Total(a, opts, Pos(first, |a|, |a|, ""))
    ensures Finished(a, first, t)
  {
    assert a[1..first] + a[first..] == a[1..];
  }

  /** "--" counts as an option, and everything after it as skipped. */
  lemma DashesTotal(a: seq<string>, opts: string, first: int, k: int, t: Scan)
    requires 1 <= first <= k < |a| && a[k] == "--" && t == Total(a, opts, Pos(first, k, k, ""))
    ensures Finished(Rotated(a, first, k, k + 1), first + 1, t)
    ensures first == k ==> Finished(a, first + 1, t)
  {
    var r := Rotated(a, first, k, k + 1);
    assert a[k..][1..] == a[k + 1..];
    assert t.opt == a[1..first] + ["--"] && t.rest == a[first..k] + a[k + 1..];
    assert r[1..] == a[1..first] + a[k..k + 1] + a[first..k] + a[k + 1..];
    if first == k {
      assert r == a;
    }
  }

  /** An option element starts with its first option character. */
  lemma StartTotal(a: seq<string>, opts: string, first: int, k: int)
    requires 1 <= first <= k < |a| && a[k] != "--" && !NonOption(a[k])
    ensures Total(a, opts, Pos(first, k, k, "")) == Total(a, opts, Pos(first, k, k, a[k][1..]))
  {
  }

  /** One option character moves one report from the scan ahead to the scan done. */
  lemma CharTotal(a: seq<string>, opts: string, p: Pos)
    requires p.Ok(|a|) && p.next != ""
    ensures var d := Decode(opts, a[p.optind..], p.next); var q := Pos(p.first, p.last, p.optind + d.taken, d.more);
            q.Ok(|a|) && Total(a, opts, p) == Report(d.event, Total(a, opts, q))
  {
    var d := Decode(opts, a[p.optind..], p.next);
    assert a[p.optind..][d.taken..] == a[p.optind + d.taken..];
    assert a[p.last..p.optind + d.taken] == a[p.last..p.optind] + a[p.optind..][..d.taken];
  }

  class Getopt {
    var optind: int
    var initialized: bool
    var firstNonopt: int
    var lastNonopt: int
    var nextchar: string
    var optarg: Option<string>
    var optopt: char

    constructor ()
      ensures optind == 1 && !initialized && At() == Pos(1, 1, 1, "")
    {
      optind, initialized, firstNonopt, lastNonopt, nextchar, optarg, optopt := 1, false, 0, 0, "", None, '?';
    }

    /** Where the next call really starts: afresh, or where the last one stopped if optind was not moved back. */
    function At(): Pos
      reads this
    {
      if !initialized || optind == 0 then var o := if optind == 0 then 1 else optind; Pos(o, o, o, "")
      else if nextchar == "" then
        var l := if lastNonopt > optind then optind else lastNonopt;
        Pos(if firstNonopt > optind then optind else firstNonopt, l, optind, "")
      else Pos(firstNonopt, lastNonopt, optind, nextchar)
    }

    /** Exchanges the blocks [firstNonopt, lastNonopt) and [lastNonopt, optind) of argv. */
    method Exchange(argv: array<string>)
      requires 0 <= firstNonopt <= lastNonopt <= optind <= argv.Length
      modifies this`firstNonopt, this`lastNonopt, argv
      ensures argv[..] == Rotated(old(argv[..]), old(firstNonopt), old(lastNonopt), optind)
      ensures firstNonopt == old(firstNonopt) + (optind - old(lastNonopt)) && lastNonopt == optind
    {
      var bottom, middle, top := firstNonopt, lastNonopt, optind;
      ghost var w := Rotated(argv[..], bottom, middle, top);
      while top > middle && middle > bottom
        invariant 0 <= bottom <= middle <= top <= argv.Length
        invariant Rotated(argv[..], bottom, middle, top) == w
        invariant firstNonopt == old(firstNonopt) && lastNonopt == old(lastNonopt)
        decreases top - bottom
      {
        bottom, top := ExchangeShorter(argv, bottom, middle, top);
      }
      RotatedNothing(argv[..], bottom, middle, top);
      firstNonopt := firstNonopt + (optind - lastNonopt);
      lastNonopt := optind;
    }

    /** Puts the options met since the skipped non-options in front of them. */
    method MoveSkipped(argv: array<string>, ghost opts: string, ghost t: Scan)
      requires 1 <= argv.Length && Pos(firstNonopt, lastNonopt, optind, "").Ok(argv.Length)
      requires t == Total(argv[..], opts, Pos(firstNonopt, lastNonopt, optind, ""))
      modifies this`firstNonopt, this`lastNonopt, argv
      ensures 1 <= firstNonopt <= optind
      ensures argv[optind..] == old(argv[optind..]) && argv[0] == old(argv[0])
      ensures Total(argv[..], opts, Pos(firstNonopt, optind, optind, "")) == t
    {
      SettleTotal(argv[..], opts, Pos(firstNonopt, lastNonopt, optind, ""));
      if firstNonopt != lastNonopt && lastNonopt != optind {
        Exchange(argv);
      } else if lastNonopt != optind {
        firstNonopt := optind;
      }
    }

    /** Then skips further non-options. */
    method Skip(argv: array<string>, ghost opts: string, ghost t: Scan)
      requires 1 <= argv.Length && Pos(firstNonopt, lastNonopt, optind, "").Ok(argv.Length)
      requires t == Total(argv[..], opts, Pos(firstNonopt, lastNonopt, optind, ""))
      modifies this`optind, this`firstNonopt, this`lastNonopt, argv
      ensures old(optind) <= optind == lastNonopt <= argv.Length && 1 <= firstNonopt <= lastNonopt
      ensures optind < argv.Length ==> argv[optind] == "--" || !NonOption(argv[optind])
      ensures argv[old(optind)..] == old(argv[optind..]) && argv[0] == old(argv[0])
      ensures Total(argv[..], opts, Pos(firstNonopt, lastNonopt, optind, "")) == t
    {
      MoveSkipped(argv, opts, t);
      while optind < argv.Length && NonOption(argv[optind])
        invariant old(optind) <= optind <= argv.Length && 1 <= firstNonopt <= optind
        invariant argv[old(optind)..] == old(argv[optind..]) && argv[0] == old(argv[0])
        invariant Total(argv[..], opts, Pos(firstNonopt, optind, optind, "")) == t
      {
        SkipTotal(argv[..], opts, firstNonopt, optind);
        optind := optind + 1;
      }
      lastNonopt := optind;
    }

    /** Moves to the next option element, or ends the scan with optind at the first non-option. */
    method NextElement(argv: array<string>, ghost opts: string, ghost t: Scan) returns (done: bool)
      requires 1 <= argv.Length && Pos(firstNonopt, lastNonopt, optind, "").Ok(argv.Length) && nextchar == ""
      requires t == Total(argv[..], opts, Pos(firstNonopt, lastNonopt, optind, ""))
      modifies this`optind, this`firstNonopt, this`lastNonopt, this`nextchar, argv
      ensures argv[0] == old(argv[0])
      ensures done ==> Finished(argv[..], optind, t) && nextchar == "" && optind <= firstNonopt && optind <= lastNonopt
      ensures !done ==>
        && nextchar != "" && Pos(firstNonopt, lastNonopt, optind, nextchar).Ok(argv.Length)
        && Total(argv[..], opts, Pos(firstNonopt, lastNonopt, optind, nextchar)) == t
    {
      Skip(argv, opts, t);
      if optind != argv.Length && argv[optind] == "--" {
        Dashes(argv, opts, t);
        return true;
      }
      if optind == argv.Length {
        EndTotal(argv[..], opts, firstNonopt, t);
        if firstNonopt != lastNonopt {
          optind := firstNonopt;
        }
        return true;
      }
      StartTotal(argv[..], opts, firstNonopt, optind);
      nextchar := argv[optind][1..];
      return false;
    }

    /** The element "--" ends the scan: it is moved like an option and all that follows counts as skipped. */
    method Dashes(argv: array<string>, ghost opts: string, ghost t: Scan)
      requires 1 <= firstNonopt <= lastNonopt == optind < argv.Length && argv[optind] == "--"
      requires t == Total(argv[..], opts, Pos(firstNonopt, lastNonopt, optind, ""))
      modifies this`optind, this`firstNonopt, this`lastNonopt, argv
      ensures argv[0] == old(argv[0])
      ensures Finished(argv[..], optind, t) && optind <= firstNonopt && optind <= lastNonopt
    {
      DashesTotal(argv[..], opts, firstNonopt, optind, t);
      optind := optind + 1;
      if firstNonopt != lastNonopt && lastNonopt != optind {
        Exchange(argv);
      } else if firstNonopt == lastNonopt {
        firstNonopt := optind;
      }
      lastNonopt := argv.Length;
      optind := argv.Length;
      if firstNonopt != lastNonopt {
        optind := firstNonopt;
      }
    }

    /** Handles the next short option character. */
    method ShortOption(argv: array<string>, opts: string) returns (c: char, ghost e: Event)
      requires Permuting(opts) && optarg == None
      requires nextchar != "" && Pos(firstNonopt, lastNonopt, optind, nextchar).Ok(argv.Length)
      modifies this`optind, this`nextchar, this`optarg, this`optopt
      ensures var d := Decode(opts, argv[old(optind)..], old(nextchar));
              e == d.event && optind == old(optind) + d.taken && nextchar == d.more
      ensures c == e.c && optarg == e.arg && optopt == if e.optopt.Some? then e.optopt.value else old(optopt)
    {
      ghost var d := Decode(opts, argv[optind..], nextchar);
      e := d.event;
      c := nextchar[0];
      nextchar := nextchar[1..];
      var temp := MyIndex(opts, c);
      if nextchar == "" {
        optind := optind + 1;
      }
      if temp == |opts| || c == ':' {
        optopt := c;
        return '?', e;
      }
      if temp + 1 < |opts| && opts[temp + 1] == ':' {
        if temp + 2 < |opts| && opts[temp + 2] == ':' {
          if nextchar != "" {
            optarg := Some(nextchar);
            optind := optind + 1;
          } else {
            optarg := None;
          }
        } else {
          if nextchar != "" {
            optarg := Some(nextchar);
            optind := optind + 1;
          } else if optind == argv.Length {
            optopt := c;
            c := if opts[0] == ':' then ':' else '?';
          } else {
            optarg := Some(argv[optind]);
            optind := optind + 1;
          }
        }
        nextchar := "";
      }
    }

    /**
      One call. It gives the next report of the scan of the original argv, whatever has been moved so far,
      or ends with argv permuted and optind at the first non-option, where a further call would start afresh.
     */
    method GetOpt(argv: array<string>, opts: string) returns (c: Option<char>, ghost e: Option<Event>)
      requires Permuting(opts) && (argv.Length == 0 || At().Ok(argv.Length))
      modifies this, argv
      ensures argv.Length == 0 ==> c == None
      ensures argv.Length >= 1 ==> argv[0] == old(argv[0]) && initialized && optind != 0
      ensures argv.Length >= 1 && c == None ==> Finished(argv[..], optind, Total(old(argv[..]), opts, old(At()))) && optarg == None
      ensures argv.Length >= 1 && c == None ==> At() == Pos(optind, optind, optind, "")
      ensures argv.Length >= 1 && c.Some? ==>
        && At().Ok(argv.Length) && e.Some? && c.value == e.value.c && optarg == e.value.arg
        && optopt == (if e.value.optopt.Some? then e.value.optopt.value else old(optopt))
        && Total(old(argv[..]), opts, old(At())) == Report(e.value, Total(argv[..], opts, At()))
    {
      e := None;
      if argv.Length < 1 {
        return None, None;
      }
      ghost var t := Total(argv[..], opts, At());
      var done := Resume(argv, opts, t);
      if done {
        return None, None;
      }
      var ch;
      ghost var ev;
      ch, ev := NextReport(argv, opts, t);
      c, e := Some(ch), Some(ev);
    }

    /** Finds where the next option character is. */
    method Resume(argv: array<string>, ghost opts: string, ghost t: Scan) returns (done: bool)
      requires 1 <= argv.Length && At().Ok(argv.Length) && t == Total(argv[..], opts, At())
      modifies this`optind, this`initialized, this`firstNonopt, this`lastNonopt, this`nextchar, this`optarg, argv
      ensures argv[0] == old(argv[0]) && initialized && optind != 0 && optarg == None
      ensures done ==> Finished(argv[..], optind, t) && At() == Pos(optind, optind, optind, "")
      ensures !done ==>
        && nextchar != "" && Pos(firstNonopt, lastNonopt, optind, nextchar).Ok(argv.Length)
        && t == Total(argv[..], opts, Pos(firstNonopt, lastNonopt, optind, nextchar))
    {
      Begin();
      optarg := None;
      done := false;
      if nextchar == "" {
        done := NextElement(argv, opts, t);
      }
    }

    method NextReport(argv: array<string>, opts: string, ghost t: Scan) returns (c: char, ghost e: Event)
      requires Permuting(opts) && optarg == None && initialized && optind != 0
      requires nextchar != "" && Pos(firstNonopt, lastNonopt, optind, nextchar).Ok(argv.Length)
      requires t == Total(argv[..], opts, Pos(firstNonopt, lastNonopt, optind, nextchar))
      modifies this`optind, this`nextchar, this`optarg, this`optopt
      ensures optind != 0 && At().Ok(argv.Length) && t == Report(e, Total(argv[..], opts, At()))
      ensures c == e.c && optarg == e.arg && optopt == if e.optopt.Some? then e.optopt.value else old(optopt)
    {
      ghost var p := Pos(firstNonopt, lastNonopt, optind, nextchar);
      CharTotal(argv[..], opts, p);
      assert argv[..][optind..] == argv[optind..];
      ghost var d := Decode(opts, argv[optind..], nextchar);
      ghost var q := Pos(p.first, p.last, p.optind + d.taken, d.more);
      c, e := ShortOption(argv, opts);
      assert At() == q;
    }

    /** The first call, and one after optind was set to 0, starts afresh; otherwise optind may have been moved back. */
    method Begin()
      modifies this`optind, this`initialized, this`firstNonopt, this`lastNonopt, this`nextchar
      ensures initialized && optind != 0 && Pos(firstNonopt, lastNonopt, optind, nextchar) == old(At())
    {
      if optind == 0 || !initialized {
        if optind == 0 {
          optind := 1;
        }
        firstNonopt, lastNonopt := optind, optind;
        nextchar := "";
        initialized := true;
      }
      if nextchar == "" {
        if lastNonopt > optind {
          lastNonopt := optind;
        }
        if firstNonopt > optind {
          firstNonopt := optind;
        }
      }
    }
  }

  method MyIndex(str: string, chr: char) returns (k: nat)
    ensures k == IndexOf(str, chr)
  {
    k := 0;
    while k < |str|
      invariant k <= |str| && IndexOf(str, chr) == k + IndexOf(str[k..], chr)
    {
      if str[k] == chr {
        return;
      }
      k := k + 1;
    }
  }

  /** After these reports the scan ahead is the rest of the whole scan. */
  ghost predicate Reached(t: Scan, events: seq<Event>, ahead: Scan) {
    ahead.opt == t.opt && ahead.rest == t.rest && t.events == events + ahead.events
  }

  lemma ReachedNext(t: Scan, events: seq<Event>, e: Event, ahead: Scan)
    requires Reached(t, events, Report(e, ahead))
    ensures Reached(t, events + [e], ahead)
  {
    assert events + ([e] + ahead.events) == events + [e] + ahead.events;
  }

  lemma FreshTotal(a: seq<string>, opts: string)
    requires 1 <= |a|
    ensures Total(a, opts, Pos(1, 1, 1, "")) == ScanFrom(opts, a[1..], "")
  {
  }

  /** A caller's loop: the calls report the whole scan, and then argv is permuted. */
  method Drive(g: Getopt, argv: array<string>, opts: string, ghost t: Scan) returns (ghost events: seq<Event>)
    requires Permuting(opts) && 1 <= argv.Length && g.At().Ok(argv.Length) && t == Total(argv[..], opts, g.At())
    modifies g, argv
    ensures argv[0] == old(argv[0]) && events == t.events && Finished(argv[..], g.optind, Scan(t.opt, t.rest, []))
  {
    events := [];
    ghost var ahead := t;
    while true
      invariant argv[0] == old(argv[0]) && g.At().Ok(argv.Length)
      invariant ahead == Total(argv[..], opts, g.At()) && Reached(t, events, ahead)
      decreases |ahead.events|
    {
      var c;
      ghost var e;
      c, e := g.GetOpt(argv, opts);
      if c == None {
        return;
      }
      ghost var next := Total(argv[..], opts, g.At());
      ReachedNext(t, events, e.value, next);
      events := events + [e.value];
      ahead := next;
    }
  }

  lemma Permuted(a: seq<string>, optind: int, t: Scan)
    requires Finished(a, optind, t)
    ensures a == [a[0]] + t.opt + t.rest
  {
    assert a == a[..1] + a[1..];
  }

  /** A whole run over fresh arguments: argv becomes the program name, the options and then the others. */
  method Run(argv: array<string>, opts: string) returns (optind: int, ghost events: seq<Event>)
    requires Permuting(opts) && 1 <= argv.Length
    modifies argv
    ensures var t := ScanFrom(opts, old(argv[..])[1..], "");
            events == t.events && argv[..] == [old(argv[0])] + t.opt + t.rest && optind == 1 + |t.opt|
  {
    var g := new Getopt();
    FreshTotal(argv[..], opts);
    ghost var t := Total(argv[..], opts, Pos(1, 1, 1, ""));
    events := Drive(g, argv, opts, t);
    optind := g.optind;
    Permuted(argv[..], optind, Scan(t.opt, t.rest, []));
  }
}
