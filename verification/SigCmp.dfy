/** The natural order of names: runs of digits compare as numbers. */
module SigCmp {
  /** A C string has no terminator inside. */
  ghost predicate CString(s: string) {
    forall i :: 0 <= i < |s| ==> 0 < s[i] as int < 256
  }

  predicate Digit(c: char) {
    '0' <= c <= '9'
  }

  /** The character at the front, or the terminator. */
  function Front(s: string): int {
    if s == "" then 0 else s[0] as int
  }

  /** Length of the run of digits at the front. */
  function Run(s: string): (n: nat)
    ensures n <= |s| && (forall i :: 0 <= i < n ==> Digit(s[i])) && (n < |s| ==> !Digit(s[n]))
  {
    if s == "" || !Digit(s[0]) then 0 else 1 + Run(s[1..])
  }

  function Wrap(x: int): int {
    (x + 0x8000_0000) % 0x1_0000_0000 - 0x8000_0000
  }

  /** Reading the digits x onto p; the fast version computes in 32 bits, taken to wrap around. */
  function Read(p: int, x: string, fast: bool): int
    decreases x
  {
    if x == "" then p
    else
      var q := 10 * p + (x[0] as int - '0' as int);
      Read(if fast then Wrap(q) else q, x[1..], fast)
  }

  /** What the comparison sees at the front: the end, a number with its first digit, or another character. */
  datatype Token = Stop | Num(v: int, d: char) | Chr(c: char)

  function Head(s: string, fast: bool): Token {
    if s == "" then Stop
    else if Digit(s[0]) then Num(Read(0, s[..Run(s)], fast), s[0])
    else Chr(s[0])
  }

  function Tail(s: string): (t: string)
    requires s != ""
    ensures |t| < |s|
  {
    if Digit(s[0]) then s[Run(s)..] else s[1..]
  }

  function CodeOf(t: Token): int {
    match t
    case Stop => 0
    case Num(_, d) => d as int
    case Chr(c) => c as int
  }

  function TokenCmp(a: Token, b: Token, fast: bool): int {
    if a.Num? && b.Num? then if fast then Wrap(a.v - b.v) else a.v - b.v
    else CodeOf(a) - CodeOf(b)
  }

  /** sigcmp_2 by tokens. */
  function Cmp2(s1: string, s2: string, fast: bool): int {
    var d := TokenCmp(Head(s1, fast), Head(s2, fast), fast);
    if d != 0 || s1 == "" || s2 == "" then d else Cmp2(Tail(s1), Tail(s2), fast)
  }

  /** strcmp, as the difference of the first characters that differ. */
  function StrCmp(s1: string, s2: string): int {
    if Front(s1) != Front(s2) || s1 == "" || s2 == "" then Front(s1) - Front(s2) else StrCmp(s1[1..], s2[1..])
  }

  /** sigcmp: names that differ only in leading zeros are told apart by strcmp. */
  function Sig(s1: string, s2: string, fast: bool): int {
    var rc := Cmp2(s1, s2, fast);
    if rc == 0 then StrCmp(s1, s2) else rc
  }

  /* ---------- 32 bits are enough for short runs ---------- */

  /** Every run of digits is below 2**31. */
  ghost predicate ShortRuns(s: string) {
    s == "" || (Read(0, s[..Run(s)], false) < 0x8000_0000 && ShortRuns(Tail(s)))
  }

  lemma {:induction false} ReadGrows(p: int, x: string)
    requires 0 <= p && forall i :: 0 <= i < |x| ==> Digit(x[i])
    ensures p <= Read(p, x, false)
    decreases x
  {
    if x != "" {
      ReadGrows(10 * p + (x[0] as int - '0' as int), x[1..]);
    }
  }

  lemma {:induction false} ReadShort(p: int, x: string)
    requires 0 <= p && (forall i :: 0 <= i < |x| ==> Digit(x[i])) && Read(p, x, false) < 0x8000_0000
    ensures Read(p, x, true) == Read(p, x, false)
    decreases x
  {
    if x != "" {
      var q := 10 * p + (x[0] as int - '0' as int);
      ReadGrows(q, x[1..]);
      assert Wrap(q) == q;
      ReadShort(q, x[1..]);
    }
  }

  lemma HeadShort(s: string)
    requires ShortRuns(s)
    ensures Head(s, true) == Head(s, false)
    ensures Head(s, false).Num? ==> 0 <= Head(s, false).v < 0x8000_0000
  {
    if s != "" && Digit(s[0]) {
      ReadGrows(0, s[..Run(s)]);
      ReadShort(0, s[..Run(s)]);
    }
  }

  lemma TokenShort(a: Token, b: Token)
    requires (a.Num? ==> 0 <= a.v < 0x8000_0000) && (b.Num? ==> 0 <= b.v < 0x8000_0000)
    ensures TokenCmp(a, b, true) == TokenCmp(a, b, false)
  {
  }

  /** The fast version agrees with the exact one while runs of digits stay below 2**31. */
  lemma {:induction false} FastIsExact(s1: string, s2: string)
    requires ShortRuns(s1) && ShortRuns(s2)
    ensures Cmp2(s1, s2, true) == Cmp2(s1, s2, false)
  {
    HeadShort(s1);
    HeadShort(s2);
    TokenShort(Head(s1, false), Head(s2, false));
    if s1 != "" && s2 != "" && TokenCmp(Head(s1, false), Head(s2, false), false) == 0 {
      FastIsExact(Tail(s1), Tail(s2));
    }
  }

  /* ---------- a total order ---------- */

  /** Every run of digits has a nonnegative value in 32 bits. */
  ghost predicate NonNeg(s: string) {
    s == "" || (0 <= Read(0, s[..Run(s)], true) && NonNeg(Tail(s)))
  }

  lemma {:induction false} ShortNonNeg(s: string)
    requires ShortRuns(s)
    ensures NonNeg(s)
  {
    if s != "" {
      ShortNonNeg(Tail(s));
      if Digit(s[0]) {
        HeadShort(s);
      } else {
        assert s[..Run(s)] == "";
      }
    }
  }

  /** The names that the chosen version orders. */
  ghost predicate Sound(s: string, fast: bool) {
    CString(s) && (fast ==> NonNeg(s))
  }

  /** What the comparison of tokens needs to be an order. */
  ghost predicate TokenOk(t: Token, fast: bool) {
    && (t.Chr? ==> t.c as int > 0 && !Digit(t.c)) && (t.Num? ==> Digit(t.d))
    && (fast && t.Num? ==> 0 <= t.v < 0x8000_0000)
  }

  lemma HeadOk(s: string, fast: bool)
    requires Sound(s, fast)
    ensures TokenOk(Head(s, fast), fast) && (s != "" ==> Sound(Tail(s), fast))
  {
    if s != "" && Digit(s[0]) {
      RunRange(s[..Run(s)]);
    }
  }

  /** Differences of such tokens do not wrap. */
  lemma TokenPlain(a: Token, b: Token, fast: bool)
    requires TokenOk(a, fast) && TokenOk(b, fast)
    ensures TokenCmp(a, b, fast) == TokenCmp(a, b, false)
  {
    if fast && a.Num? && b.Num? {
      WrapSmall(a.v - b.v);
    }
  }

  lemma TokenOrder(a: Token, b: Token, c: Token, fast: bool)
    requires TokenOk(a, fast) && TokenOk(b, fast) && TokenOk(c, fast)
    ensures TokenCmp(a, b, fast) <= 0 && TokenCmp(b, c, fast) <= 0 ==> TokenCmp(a, c, fast) <= 0
    ensures TokenCmp(a, b, fast) <= 0 && TokenCmp(b, c, fast) <= 0 && TokenCmp(a, c, fast) == 0
      ==> TokenCmp(a, b, fast) == 0 && TokenCmp(b, c, fast) == 0
    ensures TokenCmp(a, b, fast) == 0 ==> (a.Stop? <==> b.Stop?)
  {
    TokenPlain(a, b, fast);
    TokenPlain(b, c, fast);
    TokenPlain(a, c, fast);
  }

  lemma {:induction false} Cmp2Order(a: string, b: string, c: string, fast: bool)
    requires Sound(a, fast) && Sound(b, fast) && Sound(c, fast)
    ensures Cmp2(a, b, fast) <= 0 && Cmp2(b, c, fast) <= 0 ==> Cmp2(a, c, fast) <= 0
    ensures Cmp2(a, b, fast) <= 0 && Cmp2(b, c, fast) <= 0 && Cmp2(a, c, fast) == 0 ==> Cmp2(a, b, fast) == 0 && Cmp2(b, c, fast) == 0
  {
    HeadOk(a, fast);
    HeadOk(b, fast);
    HeadOk(c, fast);
    TokenOrder(Head(a, fast), Head(b, fast), Head(c, fast), fast);
    if a != "" && b != "" && c != "" {
      Cmp2Order(Tail(a), Tail(b), Tail(c), fast);
    } else if a != "" && b != "" {
      Cmp2Order(Tail(a), Tail(b), "", fast);
    } else if a != "" {
      Cmp2Order(Tail(a), "", "", fast);
    }
  }

  lemma {:induction false} Cmp2Anti(a: string, b: string, fast: bool)
    requires Sound(a, fast) && Sound(b, fast)
    ensures Cmp2(a, b, fast) < 0 <==> Cmp2(b, a, fast) > 0
  {
    HeadOk(a, fast);
    HeadOk(b, fast);
    TokenPlain(Head(a, fast), Head(b, fast), fast);
    TokenPlain(Head(b, fast), Head(a, fast), fast);
    if a != "" && b != "" {
      Cmp2Anti(Tail(a), Tail(b), fast);
    }
  }

  lemma {:induction false} Cmp2Same(a: string, fast: bool)
    requires Sound(a, fast)
    ensures Cmp2(a, a, fast) == 0
  {
    HeadOk(a, fast);
    TokenPlain(Head(a, fast), Head(a, fast), fast);
    if a != "" {
      Cmp2Same(Tail(a), fast);
    }
  }

  lemma {:induction false} StrCmpOrder(a: string, b: string, c: string)
    requires CString(a) && CString(b) && CString(c)
    ensures StrCmp(a, b) <= 0 && StrCmp(b, c) <= 0 ==> StrCmp(a, c) <= 0
    ensures StrCmp(a, b) < 0 <==> StrCmp(b, a) > 0
    ensures StrCmp(a, b) == 0 <==> a == b
  {
    if a != "" && b != "" {
      assert a == [a[0]] + a[1..] && b == [b[0]] + b[1..];
      StrCmpOrder(a[1..], b[1..], if c == "" then c else c[1..]);
    }
  }

  /** sigcmp is a total order: zero only on identical names, antisymmetric and transitive. */
  lemma SigOrder(a: string, b: string, c: string, fast: bool)
    requires Sound(a, fast) && Sound(b, fast) && Sound(c, fast)
    ensures Sig(a, b, fast) == 0 <==> a == b
    ensures Sig(a, b, fast) < 0 <==> Sig(b, a, fast) > 0
    ensures Sig(a, b, fast) <= 0 && Sig(b, c, fast) <= 0 ==> Sig(a, c, fast) <= 0
  {
    Cmp2Order(a, b, c, fast);
    Cmp2Anti(a, b, fast);
    Cmp2Anti(b, a, fast);
    Cmp2Same(a, fast);
    StrCmpOrder(a, b, c);
    StrCmpOrder(b, a, c);
  }

  /** The values read so far, one after each digit. */
  ghost predicate Reads(s: string, f: seq<int>, fast: bool) {
    |f| == |s| + 1 && forall k {:trigger f[k + 1]} :: 0 <= k < |s| ==>
      f[k + 1] == var q := 10 * f[k] + (s[k] as int - '0' as int); if fast then Wrap(q) else q
  }

  lemma {:induction false} ReadsTo(s: string, f: seq<int>, fast: bool, k: nat)
    requires Reads(s, f, fast) && k <= |s|
    ensures Read(f[k], s[k..], fast) == f[|s|]
    decreases |s| - k
  {
    if k < |s| {
      ReadsTo(s, f, fast, k + 1);
      assert s[k..][1..] == s[k + 1..];
      assert f[k + 1] == f[k + 1];
    }
  }

  /** Beyond 2**31 it need not: 2**32 wraps to 0. */
  lemma FastIsNotExact()
    ensures Cmp2("4294967296", "1", true) < 0 < Cmp2("4294967296", "1", false)
  {
    ExactRead();
    WrappedRead();
    BigDigits();
    CmpOne("4294967296", true);
    CmpOne("4294967296", false);
  }

  lemma BigDigits()
    ensures Digits("4294967296")
  {
  }

  lemma CycleDigits()
    ensures Digits("3000000000") && Digits("2000000000")
  {
  }

  lemma CmpOne(s: string, fast: bool)
    requires s != "" && Digits(s)
    ensures fast && Read(0, s, true) == 0 ==> Cmp2(s, "1", true) < 0
    ensures !fast && Read(0, s, false) > 1 ==> Cmp2(s, "1", false) > 0
  {
    CmpNumbers(s, "1", fast);
  }

  lemma CmpNumbers(s: string, t: string, fast: bool)
    requires s != "" && t != "" && Digits(s) && Digits(t)
    ensures var d := Read(0, s, fast) - Read(0, t, fast); d != 0 && -0x8000_0000 < d < 0x8000_0000 ==> Cmp2(s, t, fast) == d
    ensures !fast && Read(0, s, fast) != Read(0, t, fast) ==> Cmp2(s, t, fast) == Read(0, s, fast) - Read(0, t, fast)
  {
    RunAll(s);
    RunAll(t);
    assert s[..|s|] == s && t[..|t|] == t;
  }

  lemma ExactRead()
    ensures Read(0, "4294967296", false) == 4294967296
  {
    var s := "4294967296";
    var f := [0, 4, 42, 429, 4294, 42949, 429496, 4294967, 42949672, 429496729, 4294967296];
    ReadsTo(s, f, false, 0);
    assert s[0..] == s;
  }

  lemma WrappedRead()
    ensures Read(0, "4294967296", true) == 0
  {
    ExactRead();
    ReadWraps(0, "4294967296");
  }

  /** Reading in 32 bits gives the number wrapped around. */
  lemma {:induction false} ReadWraps(p: int, x: string)
    ensures Read(Wrap(p), x, true) == Wrap(Read(p, x, false))
    decreases x
  {
    if x != "" {
      var d := x[0] as int - '0' as int;
      WrapStep(p, d);
      ReadWraps(10 * p + d, x[1..]);
    }
  }

  lemma WrapStep(p: int, d: int)
    ensures Wrap(10 * Wrap(p) + d) == Wrap(10 * p + d)
  {
    var k := (p + 0x8000_0000) / 0x1_0000_0000;
    assert Wrap(p) == p - k * 0x1_0000_0000;
    assert 10 * Wrap(p) + d == 10 * p + d - (10 * k) * 0x1_0000_0000;
    WrapTurns(10 * p + d, 10 * k);
  }

  lemma WrapTurns(x: int, k: int)
    ensures Wrap(x - k * 0x1_0000_0000) == Wrap(x)
  {
    var y := x + 0x8000_0000;
    var q, r := y / 0x1_0000_0000, y % 0x1_0000_0000;
    assert y - k * 0x1_0000_0000 == (q - k) * 0x1_0000_0000 + r;
  }

  ghost predicate Digits(x: string) {
    forall i :: 0 <= i < |x| ==> Digit(x[i])
  }

  lemma {:induction false} RunAll(s: string)
    requires Digits(s)
    ensures Run(s) == |s|
  {
    if s != "" {
      RunAll(s[1..]);
    }
  }

  /** Two ways to read a number, given the values after each digit. */
  lemma NumberRead(s: string, f: seq<int>, n: int, w: int)
    requires Reads(s, f, false) && f[0] == 0 && f[|s|] == n && w == Wrap(n)
    ensures Read(0, s, false) == n && Read(0, s, true) == w
  {
    ReadsTo(s, f, false, 0);
    assert s[0..] == s;
    ReadWraps(0, s);
  }

  lemma ThreeBillion() returns (s: string)
    ensures s == "3000000000" && Digits(s) && Read(0, s, true) == -1294967296
  {
    s := "3000000000";
    var f := [0, 3, 30, 300, 3000, 30000, 300000, 3000000, 30000000, 300000000, 3000000000];
    NumberRead(s, f, 3000000000, -1294967296);
    CycleDigits();
  }

  lemma TwoBillion() returns (s: string)
    ensures s == "2000000000" && Digits(s) && Read(0, s, true) == 2000000000
  {
    s := "2000000000";
    var f := [0, 2, 20, 200, 2000, 20000, 200000, 2000000, 20000000, 200000000, 2000000000];
    NumberRead(s, f, 2000000000, 2000000000);
    CycleDigits();
  }

  /** With longer runs the fast version need not order names at all. */
  lemma FastCycle() returns (a: string, b: string, c: string)
    ensures a == "3000000000" && b == "0" && c == "2000000000"
    ensures Sig(a, b, true) < 0 && Sig(b, c, true) < 0 && Sig(c, a, true) < 0
  {
    a := ThreeBillion();
    c := TwoBillion();
    b := Zero();
    CmpWrapped(a, b, -1294967296, 0);
    CmpWrapped(b, c, 0, 2000000000);
    CmpWrapped(c, a, 2000000000, -1294967296);
  }

  lemma CmpWrapped(s: string, t: string, m: int, n: int)
    requires s != "" && t != "" && Digits(s) && Digits(t) && Read(0, s, true) == m && Read(0, t, true) == n && Wrap(m - n) < 0
    ensures Sig(s, t, true) < 0
  {
    RunAll(s);
    RunAll(t);
    assert s[..|s|] == s && t[..|t|] == t;
    assert Head(s, true) == Num(m, s[0]) && Head(t, true) == Num(n, t[0]);
    assert Cmp2(s, t, true) == Wrap(m - n);
  }

  /* ---------- exactly when 32 bits are enough ---------- */

  function Sign(x: int): int {
    if x < 0 then -1 else if x == 0 then 0 else 1
  }

  /** Both versions put s and t in the same order. */
  ghost predicate Agree(s: string, t: string) {
    Sign(Cmp2(s, t, true)) == Sign(Cmp2(s, t, false))
  }

  /** The last character that a C string can have. */
  const TOP: char := 255 as char

  /** A string with short runs that no part of r exceeds, and that does not go on a run of digits. */
  function Above(r: string): string {
    if r == "" then "" else if r[0] == TOP then [TOP] + Above(r[1..]) else [TOP]
  }

  lemma {:induction false} AboveIs(r: string)
    requires CString(r)
    ensures var t := Above(r); CString(t) && ShortRuns(t) && (t != "" ==> !Digit(t[0])) && Cmp2(r, t, true) <= 0
  {
    var t := Above(r);
    if r == "" {
    } else if r[0] == TOP {
      AboveIs(r[1..]);
      assert t[1..] == Above(r[1..]);
      assert Run(t) == 0 && t[..0] == "";
    } else {
      assert Run(t) == 0 && t[..0] == "" && t[1..] == "";
    }
  }

  /** A number in decimal. */
  function Text(n: nat): (s: string)
    ensures s != ""
  {
    (if n < 10 then "" else Text(n / 10)) + [('0' as int + n % 10) as char]
  }

  lemma {:induction false} ReadSnoc(p: int, x: string, c: char)
    ensures Read(p, x + [c], false) == 10 * Read(p, x, false) + (c as int - '0' as int)
    decreases x
  {
    if x == "" {
      assert x + [c] == [c] && [c][1..] == "";
    } else {
      assert (x + [c])[1..] == x[1..] + [c];
      ReadSnoc(10 * p + (x[0] as int - '0' as int), x[1..], c);
    }
  }

  lemma {:induction false} TextReads(n: nat)
    ensures Digits(Text(n)) && Read(0, Text(n), false) == n
  {
    var x := if n < 10 then "" else Text(n / 10);
    if n >= 10 {
      TextReads(n / 10);
    }
    ReadSnoc(0, x, ('0' as int + n % 10) as char);
  }

  lemma {:induction false} RunConcat(x: string, y: string)
    requires Digits(x) && (y != "" ==> !Digit(y[0]))
    ensures Run(x + y) == |x| && (x + y)[..|x|] == x && (x + y)[|x|..] == y
  {
    if x == "" {
      assert x + y == y;
    } else {
      assert (x + y)[1..] == x[1..] + y;
      RunConcat(x[1..], y);
    }
  }

  /** A name against which the fast version goes wrong at the first long run of s. */
  function Against(s: string): string {
    if s == "" then ""
    else if !Digit(s[0]) then [s[0]] + Against(s[1..])
    else if Read(0, s[..Run(s)], false) < 0x8000_0000 then s[..Run(s)] + Against(s[Run(s)..])
    else
      var w := Read(0, s[..Run(s)], true);
      Text(if w < 0 then 0 else w) + Above(s[Run(s)..])
  }

  lemma CmpFirst(s: string, t: string, fast: bool, d: int)
    requires s != "" && t != "" && d == TokenCmp(Head(s, fast), Head(t, fast), fast)
    ensures Cmp2(s, t, fast) == if d != 0 then d else Cmp2(Tail(s), Tail(t), fast)
  {
  }

  /** Small differences do not wrap. */
  lemma WrapSmall(x: int)
    requires -0x8000_0000 <= x < 0x8000_0000
    ensures Wrap(x) == x
  {
  }

  lemma WrapRange(x: int)
    ensures -0x8000_0000 <= Wrap(x) < 0x8000_0000
  {
  }

  /** The runs in front of s and y + r, where r goes on with no digit. */
  lemma HeadIs(s: string, y: string, r: string, fast: bool)
    requires y != "" && Digits(y) && (r != "" ==> !Digit(r[0])) && s == y + r
    ensures s != "" && Digit(s[0]) && Head(s, fast) == Num(Read(0, y, fast), s[0]) && Tail(s) == r
  {
    RunConcat(y, r);
  }

  /** A number x with a long run exceeds y, but not in 32 bits, if y goes on with nothing smaller. */
  lemma Exceeds(x: string, r: string, y: string, u: string, w: int, n: int)
    requires x != "" && Digits(x) && (r != "" ==> !Digit(r[0])) && Read(0, x, false) >= 0x8000_0000 && Read(0, x, true) == w
    requires y != "" && Digits(y) && (u != "" ==> !Digit(u[0])) && Read(0, y, false) == n && Read(0, y, true) == n
    requires 0 <= n < 0x8000_0000 && -0x8000_0000 <= w - n <= 0 && (w == n ==> Cmp2(r, u, true) <= 0)
    ensures Cmp2(x + r, y + u, true) <= 0 < Cmp2(x + r, y + u, false)
  {
    var s, t := x + r, y + u;
    HeadIs(s, x, r, true);
    HeadIs(s, x, r, false);
    HeadIs(t, y, u, true);
    HeadIs(t, y, u, false);
    WrapSmall(w - n);
    CmpFirst(s, t, true, w - n);
    CmpFirst(s, t, false, Read(0, x, false) - n);
  }

  lemma ShortNumber(y: string, u: string)
    requires y != "" && Digits(y) && Read(0, y, false) < 0x8000_0000 && (u != "" ==> !Digit(u[0])) && CString(u) && ShortRuns(u)
    ensures CString(y + u) && ShortRuns(y + u) && Digit((y + u)[0])
  {
    RunConcat(y, u);
  }

  /** t is short and makes the fast version put s in the wrong place. */
  ghost predicate Misplaces(t: string, s: string) {
    && t != "" && s != "" && (Digit(t[0]) <==> Digit(s[0])) && CString(t) && ShortRuns(t)
    && Cmp2(s, t, true) <= 0 < Cmp2(s, t, false)
  }

  lemma RunRange(x: string)
    ensures -0x8000_0000 <= Read(0, x, true) < 0x8000_0000
  {
    ReadWraps(0, x);
    WrapRange(Read(0, x, false));
  }

  lemma TextShort(n: nat, y: string)
    requires n < 0x8000_0000 && y == Text(n)
    ensures y != "" && Digits(y) && Read(0, y, false) == n && Read(0, y, true) == n
  {
    TextReads(n);
    ReadWraps(0, y);
    WrapSmall(n);
  }

  /** A long run exceeds its value w in 32 bits, or 0 if that is negative. */
  lemma LongRun(s: string, x: string, r: string, w: int, y: string, u: string)
    requires s == x + r && x != "" && Digits(x) && (r != "" ==> !Digit(r[0])) && CString(r)
    requires Read(0, x, false) >= 0x8000_0000 && Read(0, x, true) == w
    requires y == Text(if w < 0 then 0 else w) && u == Above(r)
    ensures Misplaces(y + u, s)
  {
    RunRange(x);
    TextShort(if w < 0 then 0 else w, y);
    AboveIs(r);
    Outdone(x, r, y, u, w, if w < 0 then 0 else w);
  }

  lemma Outdone(x: string, r: string, y: string, u: string, w: int, n: int)
    requires x != "" && Digits(x) && (r != "" ==> !Digit(r[0])) && Read(0, x, false) >= 0x8000_0000 && Read(0, x, true) == w
    requires y != "" && Digits(y) && (u != "" ==> !Digit(u[0])) && Read(0, y, false) == n && Read(0, y, true) == n
    requires 0 <= n < 0x8000_0000 && -0x8000_0000 <= w - n <= 0 && CString(u) && ShortRuns(u) && (w == n ==> Cmp2(r, u, true) <= 0)
    ensures var t := y + u; Digit(t[0]) && CString(t) && ShortRuns(t) && Cmp2(x + r, t, true) <= 0 < Cmp2(x + r, t, false)
  {
    ShortNumber(y, u);
    Exceeds(x, r, y, u, w, n);
  }

  lemma Zero() returns (s: string)
    ensures s == "0" && Digits(s) && Read(0, s, false) == 0 && Read(0, s, true) == 0
  {
    s := "0";
    NumberRead(s, [0, 0], 0, 0);
  }

  /** An equal character in front leaves the order to the rest. */
  lemma SameChar(s: string, t: string)
    requires s != "" && CString(s) && !Digit(s[0]) && CString(t) && ShortRuns(t)
    ensures var u := [s[0]] + t; CString(u) && ShortRuns(u) && Cmp2(s, u, true) == Cmp2(s[1..], t, true) && Cmp2(s, u, false) == Cmp2(s[1..], t, false)
  {
    var u := [s[0]] + t;
    assert Run(u) == 0 && u[..0] == "" && u[1..] == t;
    CmpFirst(s, u, true, 0);
    CmpFirst(s, u, false, 0);
  }

  /** And so does an equal number. */
  lemma SameNumber(x: string, r: string, t: string)
    requires x != "" && Digits(x) && (r != "" ==> !Digit(r[0])) && (t != "" ==> !Digit(t[0])) && Read(0, x, false) < 0x8000_0000
    requires CString(t) && ShortRuns(t)
    ensures CString(x + t) && ShortRuns(x + t) && Cmp2(x + r, x + t, true) == Cmp2(r, t, true) && Cmp2(x + r, x + t, false) == Cmp2(r, t, false)
  {
    ShortNumber(x, t);
    HeadIs(x + r, x, r, true);
    HeadIs(x + r, x, r, false);
    HeadIs(x + t, x, t, true);
    HeadIs(x + t, x, t, false);
    WrapSmall(0);
    CmpFirst(x + r, x + t, true, 0);
    CmpFirst(x + r, x + t, false, 0);
  }

  lemma {:induction false} AgainstIs(s: string)
    requires CString(s) && !ShortRuns(s)
    ensures Misplaces(Against(s), s)
    decreases s, 1
  {
    if !Digit(s[0]) {
      assert Run(s) == 0 && s[..0] == "";
      AgainstIs(s[1..]);
      SameChar(s, Against(s[1..]));
    } else {
      AgainstNumber(s, s[..Run(s)], s[Run(s)..]);
    }
  }

  lemma AgainstNumber(s: string, x: string, r: string)
    requires CString(s) && !ShortRuns(s) && Digit(s[0]) && x == s[..Run(s)] && r == s[Run(s)..]
    ensures Misplaces(Against(s), s)
    decreases s, 0
  {
    FrontRun(s, x, r);
    AgainstParts(s, x, r);
    if Read(0, x, false) < 0x8000_0000 {
      AgainstIs(r);
      NumberMisplaced(s, x, r, Against(r));
    } else {
      var w := Read(0, x, true);
      LongRun(s, x, r, w, Text(if w < 0 then 0 else w), Above(r));
    }
  }

  lemma FrontRun(s: string, x: string, r: string)
    requires CString(s) && s != "" && Digit(s[0]) && x == s[..Run(s)] && r == s[Run(s)..]
    ensures s == x + r && x != "" && Digits(x) && (r != "" ==> !Digit(r[0])) && CString(r) && |r| < |s|
  {
    var n := Run(s);
    assert forall i :: 0 <= i < n ==> x[i] == s[i];
    forall i | 0 <= i < |r| ensures 0 < r[i] as int < 256 { assert r[i] == s[n + i]; }
  }

  lemma AgainstParts(s: string, x: string, r: string)
    requires s != "" && Digit(s[0]) && x == s[..Run(s)] && r == s[Run(s)..]
    ensures Read(0, x, false) < 0x8000_0000 ==> Against(s) == x + Against(r)
    ensures Read(0, x, false) >= 0x8000_0000 ==> var w := Read(0, x, true); Against(s) == Text(if w < 0 then 0 else w) + Above(r)
    ensures !ShortRuns(s) ==> Read(0, x, false) >= 0x8000_0000 || !ShortRuns(r)
  {
  }

  lemma NumberMisplaced(s: string, x: string, r: string, t: string)
    requires s == x + r && x != "" && Digits(x) && (r != "" ==> !Digit(r[0])) && Read(0, x, false) < 0x8000_0000
    requires Misplaces(t, r)
    ensures Misplaces(x + t, s)
  {
    SameNumber(x, r, t);
  }

  /** The versions agree on s and every name with short runs exactly when s has short runs. */
  lemma AgreesWhen(s: string)
    requires CString(s)
    ensures ShortRuns(s) <==> forall t: string {:trigger Agree(s, t)} :: CString(t) && ShortRuns(t) ==> Agree(s, t)
  {
    if ShortRuns(s) {
      forall t: string {:trigger Agree(s, t)} | CString(t) && ShortRuns(t) ensures Agree(s, t) {
        FastIsExact(s, t);
      }
    } else {
      AgainstIs(s);
      assert !Agree(s, Against(s));
    }
  }

  /* ---------- what comes first ---------- */

  /** a and b have their first i characters in common; then a ends or has the smaller character. */
  ghost predicate FirstAt(a: string, b: string, i: nat) {
    i <= |a| && i < |b| && a[..i] == b[..i] && (i == |a| || a[i] < b[i])
  }

  /** In a dictionary a comes before b. */
  ghost predicate Before(a: string, b: string) {
    exists i: nat :: FirstAt(a, b, i)
  }

  lemma FirstNext(a: string, b: string, i: nat)
    requires a != "" && b != "" && a[0] == b[0]
    ensures FirstAt(a, b, i + 1) <==> FirstAt(a[1..], b[1..], i)
  {
    var x, y := a[1..], b[1..];
    if i < |a| && i < |b| {
      assert a[..i + 1] == [a[0]] + x[..i] && b[..i + 1] == [b[0]] + y[..i];
      assert a[..i + 1][1..] == x[..i] && b[..i + 1][1..] == y[..i];
    }
  }

  lemma BeforeNext(a: string, b: string)
    requires a != "" && b != "" && a[0] == b[0]
    ensures Before(a, b) <==> Before(a[1..], b[1..])
  {
    if i: nat :| FirstAt(a, b, i) {
      assert i > 0;
      FirstNext(a, b, i - 1);
    }
    if i: nat :| FirstAt(a[1..], b[1..], i) {
      FirstNext(a, b, i);
    }
  }

  lemma {:induction false} StrCmpReads(a: string, b: string)
    requires CString(a) && CString(b)
    ensures StrCmp(a, b) < 0 <==> Before(a, b)
    ensures StrCmp(a, b) == 0 <==> a == b
    ensures StrCmp(a, b) > 0 <==> Before(b, a)
  {
    if a != "" && b != "" && a[0] == b[0] {
      BeforeNext(a, b);
      BeforeNext(b, a);
      assert a == [a[0]] + a[1..] && b == [b[0]] + b[1..];
      StrCmpReads(a[1..], b[1..]);
    } else {
      FirstDiffers(a, b);
      FirstDiffers(b, a);
    }
  }

  lemma FirstDiffers(a: string, b: string)
    requires a == "" || b == "" || a[0] != b[0]
    ensures Before(a, b) <==> b != "" && (a == "" || a[0] < b[0])
  {
    forall i: nat | i > 0 ensures !FirstAt(a, b, i) {
      assert i <= |a| && i <= |b| ==> a[..i][0] == a[0] && b[..i][0] == b[0];
    }
    assert FirstAt(a, b, 0) <==> b != "" && (a == "" || a[0] < b[0]);
  }

  /** No run of digits goes on from x into s. */
  ghost predicate Loose(x: string, s: string) {
    x == "" || s == "" || !('0' <= x[|x| - 1] <= '9' && '0' <= s[0] <= '9')
  }

  /** A common front decides nothing. */
  lemma {:induction false} CommonFront(x: string, s: string, t: string, fast: bool)
    requires Loose(x, s) && Loose(x, t)
    ensures Cmp2(x + s, x + t, fast) == Cmp2(s, t, fast)
    decreases |x|
  {
    if x == "" {
      assert x + s == s && x + t == t;
    } else {
      var n := if Digit(x[0]) then Run(x) else 1;
      var d, y := x[..n], x[n..];
      assert x == d + y;
      FrontStep(x, d, y, s, t, fast);
      CommonFront(y, s, t, fast);
    }
  }

  lemma FrontStep(x: string, d: string, y: string, s: string, t: string, fast: bool)
    requires x != "" && Loose(x, s) && Loose(x, t) && x == d + y && |d| == if Digit(x[0]) then Run(x) else 1
    ensures Loose(y, s) && Loose(y, t) && Cmp2(x + s, x + t, fast) == Cmp2(y + s, y + t, fast)
  {
    FrontLoose(x, d, y, s);
    FrontLoose(x, d, y, t);
    assert x + s == d + (y + s) && x + t == d + (y + t);
    FrontToken(d, y + s, y + t, fast);
  }

  lemma FrontLoose(x: string, d: string, y: string, s: string)
    requires x != "" && Loose(x, s) && x == d + y && |d| == if Digit(x[0]) then Run(x) else 1
    ensures d != "" && d[0] == x[0] && Loose(y, s) && (Digit(x[0]) ==> Digits(d) && (y + s != "" ==> !Digit((y + s)[0])))
  {
    assert forall i :: 0 <= i < |d| ==> d[i] == x[i];
    if y == "" {
      assert x == d && y + s == s;
    } else {
      assert y[|y| - 1] == x[|x| - 1] && (y + s)[0] == y[0] == x[|d|];
    }
  }

  /** One token in front: a run of digits or another character. */
  lemma FrontToken(d: string, s: string, t: string, fast: bool)
    requires d != "" && (if Digit(d[0]) then Digits(d) && (s != "" ==> !Digit(s[0])) && (t != "" ==> !Digit(t[0])) else |d| == 1)
    ensures Cmp2(d + s, d + t, fast) == Cmp2(s, t, fast)
  {
    if Digit(d[0]) {
      HeadIs(d + s, d, s, fast);
      HeadIs(d + t, d, t, fast);
    } else {
      assert (d + s)[1..] == s && (d + t)[1..] == t;
    }
    if fast { WrapSmall(0); }
    CmpFirst(d + s, d + t, fast, 0);
  }

  /** Behind a common front the smaller character comes first, unless both are digits; the end comes before everything. */
  lemma CharsDecide(x: string, s: string, t: string, fast: bool)
    requires Loose(x, s) && Loose(x, t) && t != "" && CString(t)
    requires s == "" || (s[0] < t[0] && !('0' <= s[0] <= '9' && '0' <= t[0] <= '9'))
    ensures Sig(x + s, x + t, fast) < 0 < Sig(x + t, x + s, fast)
  {
    CommonFront(x, s, t, fast);
    CommonFront(x, t, s, fast);
  }

  /** Behind a common front the smaller number comes first, however it is written. */
  lemma NumbersDecide(x: string, y: string, s: string, z: string, t: string, fast: bool)
    requires y != "" && Digits(y) && z != "" && Digits(z) && Loose(x, y) && Loose(x, z) && Loose(y, s) && Loose(z, t)
    requires Read(0, y, false) < Read(0, z, false) && (fast ==> Read(0, z, false) < 0x8000_0000)
    ensures Sig(x + (y + s), x + (z + t), fast) < 0 < Sig(x + (z + t), x + (y + s), fast)
  {
    var m, n := Read(0, y, false), Read(0, z, false);
    CommonFront(x, y + s, z + t, fast);
    CommonFront(x, z + t, y + s, fast);
    ReadGrows(0, y);
    if fast {
      ReadShort(0, y);
      ReadShort(0, z);
      WrapSmall(m - n);
      WrapSmall(n - m);
    }
    HeadIs(y + s, y, s, fast);
    HeadIs(z + t, z, t, fast);
    CmpFirst(y + s, z + t, fast, m - n);
    CmpFirst(z + t, y + s, fast, n - m);
  }

  /** Where names differ in leading zeros only, the dictionary decides. */
  lemma ZerosDecide(x: string, y: string, s: string, fast: bool)
    requires y != "" && Digits(y) && y[0] != '0' && Loose(x, y) && Loose(y, s) && CString(x + (y + s))
    ensures Sig(x + (['0'] + y + s), x + (y + s), fast) < 0
  {
    var z := ['0'] + y;
    assert z[1..] == y && Read(0, z, fast) == Read(0, y, fast);
    CommonFront(x, z + s, y + s, fast);
    HeadIs(z + s, z, s, fast);
    HeadIs(y + s, y, s, fast);
    if fast { WrapSmall(0); }
    CmpFirst(z + s, y + s, fast, 0);
    Cmp2Alike(s, fast);
    StrCmpFront(x, z + s, y + s);
  }

  lemma {:induction false} Cmp2Alike(s: string, fast: bool)
    ensures Cmp2(s, s, fast) == 0
  {
    if fast { WrapSmall(0); }
    if s != "" {
      Cmp2Alike(Tail(s), fast);
    }
  }

  lemma {:induction false} StrCmpFront(x: string, s: string, t: string)
    ensures StrCmp(x + s, x + t) == StrCmp(s, t)
    decreases |x|
  {
    if x == "" {
      assert x + s == s && x + t == t;
    } else {
      assert (x + s)[1..] == x[1..] + s && (x + t)[1..] == x[1..] + t;
      StrCmpFront(x[1..], s, t);
    }
  }

  /* ---------- exactly when the fast version orders ---------- */

  /** The laws of an order for s and two other names, in the fast version. */
  ghost predicate Lawful(s: string, t: string, u: string) {
    && (Sig(s, t, true) == 0 <==> s == t)
    && (Sig(s, t, true) < 0 <==> Sig(t, s, true) > 0)
    && (Sig(s, t, true) <= 0 && Sig(t, u, true) <= 0 ==> Sig(s, u, true) <= 0)
    && (Sig(t, s, true) <= 0 && Sig(s, u, true) <= 0 ==> Sig(t, u, true) <= 0)
    && (Sig(t, u, true) <= 0 && Sig(u, s, true) <= 0 ==> Sig(t, s, true) <= 0)
  }

  /** s up to its first run with a negative value, which is replaced by n, with the runs in front read in 32 bits. */
  function Challenge(s: string, n: nat): string {
    if s == "" then ""
    else if !Digit(s[0]) then [s[0]] + Challenge(s[1..], n)
    else
      var w := Read(0, s[..Run(s)], true);
      if w < 0 then Text(n) else Text(w) + Challenge(s[Run(s)..], n)
  }

  /** The value of that run. */
  function Negative(s: string): int {
    if s == "" then 0
    else if !Digit(s[0]) then Negative(s[1..])
    else
      var w := Read(0, s[..Run(s)], true);
      if w < 0 then w else Negative(s[Run(s)..])
  }

  /** t is short and compares with s, both ways, as n does with w in 32 bits. */
  ghost predicate Stands(t: string, s: string, n: int, w: int) {
    && t != "" && s != "" && (Digit(t[0]) <==> Digit(s[0])) && CString(t) && ShortRuns(t)
    && Cmp2(s, t, true) == Wrap(w - n) && Cmp2(t, s, true) == Wrap(n - w)
  }

  lemma CharBoth(c: char, s: string, t: string)
    requires !Digit(c)
    ensures Cmp2([c] + s, [c] + t, true) == Cmp2(s, t, true)
  {
    var x, y := [c] + s, [c] + t;
    assert x[1..] == s && y[1..] == t;
    CmpFirst(x, y, true, 0);
  }

  /** Runs of equal value in front leave the order to the rest. */
  lemma NumberBoth(x: string, s: string, y: string, t: string)
    requires x != "" && Digits(x) && (s != "" ==> !Digit(s[0])) && y != "" && Digits(y) && (t != "" ==> !Digit(t[0]))
    requires Read(0, x, true) == Read(0, y, true)
    ensures Cmp2(x + s, y + t, true) == Cmp2(s, t, true)
  {
    HeadIs(x + s, x, s, true);
    HeadIs(y + t, y, t, true);
    WrapSmall(0);
    CmpFirst(x + s, y + t, true, 0);
  }

  /** Runs of different value in front decide. */
  lemma NumberDecides(x: string, s: string, y: string, t: string, m: int, n: int)
    requires x != "" && Digits(x) && (s != "" ==> !Digit(s[0])) && y != "" && Digits(y) && (t != "" ==> !Digit(t[0]))
    requires Read(0, x, true) == m && Read(0, y, true) == n && Wrap(m - n) != 0
    ensures Cmp2(x + s, y + t, true) == Wrap(m - n)
  {
    HeadIs(x + s, x, s, true);
    HeadIs(y + t, y, t, true);
    CmpFirst(x + s, y + t, true, Wrap(m - n));
  }

  lemma CharStands(s: string, t: string, n: int, w: int)
    requires s != "" && CString(s) && !Digit(s[0]) && Stands(t, s[1..], n, w)
    ensures Stands([s[0]] + t, s, n, w)
  {
    SameChar(s, t);
    assert s == [s[0]] + s[1..];
    CharBoth(s[0], s[1..], t);
    CharBoth(s[0], t, s[1..]);
  }

  lemma NumberStands(s: string, x: string, r: string, v: nat, y: string, t: string, n: int, w: int)
    requires s == x + r && x != "" && Digits(x) && (r != "" ==> !Digit(r[0])) && Read(0, x, true) == v < 0x8000_0000
    requires y == Text(v) && Stands(t, r, n, w)
    ensures Stands(y + t, s, n, w)
  {
    TextShort(v, y);
    ShortNumber(y, t);
    NumberBoth(x, r, y, t);
    NumberBoth(y, t, x, r);
  }

  lemma NegativeStands(s: string, x: string, r: string, y: string, n: nat, w: int)
    requires s == x + r && x != "" && Digits(x) && (r != "" ==> !Digit(r[0])) && Read(0, x, true) == w < 0
    requires y == Text(n) && n < 0x8000_0000
    ensures Stands(y, s, n, w)
  {
    RunRange(x);
    TextShort(n, y);
    ShortNumber(y, "");
    WrapZero(w - n);
    WrapZero(n - w);
    assert y + "" == y;
    NumberDecides(x, r, y, "", w, n);
    NumberDecides(y, "", x, r, n, w);
  }

  lemma {:induction false} ChallengeIs(s: string, n: nat)
    requires CString(s) && !NonNeg(s) && n < 0x8000_0000
    ensures Stands(Challenge(s, n), s, n, Negative(s)) && -0x8000_0000 <= Negative(s) < 0
    decreases s, 1
  {
    if !Digit(s[0]) {
      assert Run(s) == 0 && s[..0] == "";
      ChallengeIs(s[1..], n);
      CharStands(s, Challenge(s[1..], n), n, Negative(s));
    } else {
      ChallengeNumber(s, n, s[..Run(s)], s[Run(s)..]);
    }
  }

  lemma ChallengeNumber(s: string, n: nat, x: string, r: string)
    requires CString(s) && !NonNeg(s) && n < 0x8000_0000 && Digit(s[0]) && x == s[..Run(s)] && r == s[Run(s)..]
    ensures Stands(Challenge(s, n), s, n, Negative(s)) && -0x8000_0000 <= Negative(s) < 0
    decreases s, 0
  {
    assert s == x + r;
    var v := Read(0, x, true);
    RunRange(x);
    if v < 0 {
      var y := Text(n);
      NegativeStands(s, x, r, y, n, v);
      assert Challenge(s, n) == y;
    } else {
      var y, t := Text(v), Challenge(r, n);
      ChallengeIs(r, n);
      NumberStands(s, x, r, v, y, t, n, Negative(r));
      assert Challenge(s, n) == y + t;
    }
  }

  lemma {:induction false} ChallengesOrdered(s: string, m: nat, n: nat)
    requires CString(s) && !NonNeg(s) && m < n < 0x8000_0000
    ensures Cmp2(Challenge(s, m), Challenge(s, n), true) == m - n
    decreases s, 1
  {
    if !Digit(s[0]) {
      assert Run(s) == 0 && s[..0] == "";
      ChallengesOrdered(s[1..], m, n);
      CharBoth(s[0], Challenge(s[1..], m), Challenge(s[1..], n));
    } else {
      NumbersOrdered(s, m, n, s[..Run(s)], s[Run(s)..]);
    }
  }

  lemma NumbersOrdered(s: string, m: nat, n: nat, x: string, r: string)
    requires CString(s) && !NonNeg(s) && m < n < 0x8000_0000 && Digit(s[0]) && x == s[..Run(s)] && r == s[Run(s)..]
    ensures Cmp2(Challenge(s, m), Challenge(s, n), true) == m - n
    decreases s, 0
  {
    assert s == x + r;
    var v := Read(0, x, true);
    RunRange(x);
    if v < 0 {
      var y, u := Text(m), Text(n);
      TextShort(m, y);
      TextShort(n, u);
      WrapSmall(m - n);
      assert y + "" == y && u + "" == u;
      NumberDecides(y, "", u, "", m, n);
      assert Challenge(s, m) == y && Challenge(s, n) == u;
    } else {
      var y, t, u := Text(v), Challenge(r, m), Challenge(r, n);
      TextShort(v, y);
      ChallengesOrdered(r, m, n);
      ChallengeIs(r, m);
      ChallengeIs(r, n);
      NumberBoth(y, t, y, u);
      assert Challenge(s, m) == y + t && Challenge(s, n) == y + u;
    }
  }

  /** A negative value wraps against 0 or the largest number, or makes a cycle with both. */
  lemma WrapsSomewhere(w: int, n: int)
    requires -0x8000_0000 <= w < 0 && n == 0x7FFF_FFFF
    ensures Wrap(w - 0) < 0 && (w == -0x8000_0000 ==> Wrap(0 - w) < 0)
    ensures w == -1 ==> Wrap(w - n) < 0 && Wrap(n - w) < 0
    ensures -0x8000_0000 < w < -1 ==> Wrap(w - n) > 0
  {
  }

  lemma Unlawful(s: string) returns (t: string, u: string)
    requires CString(s) && !NonNeg(s)
    ensures CString(t) && ShortRuns(t) && CString(u) && ShortRuns(u) && !Lawful(s, t, u)
  {
    var w;
    t, u, w := TwoChallenges(s, 0, 0x7FFF_FFFF);
    if Lawful(s, t, u) {
      Breaks(s, t, u, w, 0, 0x7FFF_FFFF);
      t, u := u, t;
    }
  }

  /** Short names that compare with s as m and n compare with a negative number in 32 bits. */
  lemma TwoChallenges(s: string, m: nat, n: nat) returns (t: string, u: string, w: int)
    requires CString(s) && !NonNeg(s) && m < n < 0x8000_0000
    ensures -0x8000_0000 <= w < 0 && Stands(t, s, m, w) && Stands(u, s, n, w) && Cmp2(t, u, true) == m - n
  {
    t, u, w := Challenge(s, m), Challenge(s, n), Negative(s);
    ChallengeIs(s, m);
    ChallengeIs(s, n);
    ChallengesOrdered(s, m, n);
  }

  lemma Breaks(s: string, t: string, u: string, w: int, m: nat, n: nat)
    requires -0x8000_0000 <= w < 0 && m == 0 && n == 0x7FFF_FFFF && Cmp2(t, u, true) == m - n
    requires Stands(t, s, m, w) && Stands(u, s, n, w)
    ensures !Lawful(s, t, u) || !Lawful(s, u, t)
  {
    BreaksAt(s, t, u, w, n, Cmp2(s, t, true), Cmp2(t, s, true), Cmp2(s, u, true), Cmp2(u, s, true));
  }

  lemma BreaksAt(s: string, t: string, u: string, w: int, n: int, st: int, ts: int, su: int, us: int)
    requires -0x8000_0000 <= w < 0 && n == 0x7FFF_FFFF && Cmp2(t, u, true) == -n
    requires Cmp2(s, t, true) == st && Cmp2(t, s, true) == ts && Cmp2(s, u, true) == su && Cmp2(u, s, true) == us
    requires st == Wrap(w) && ts == Wrap(-w) && su == Wrap(w - n) && us == Wrap(n - w)
    ensures !Lawful(s, t, u) || !Lawful(s, u, t)
  {
    WrapsSomewhere(w, n);
    WrapZero(w);
    WrapZero(-w);
    WrapZero(w - n);
    WrapZero(n - w);
  }

  lemma OneRun(s: string)
    requires s != "" && Digits(s) && 0 <= Read(0, s, true) && Read(0, s, false) >= 0x8000_0000
    ensures CString(s) && NonNeg(s) && !ShortRuns(s)
  {
    RunAll(s);
    assert s[..|s|] == s && s[|s|..] == "";
  }

  /** A long run need not hurt. */
  lemma LongButOrdered(s: string)
    requires s == "4294967296"
    ensures CString(s) && NonNeg(s) && !ShortRuns(s)
  {
    BigDigits();
    ExactRead();
    WrappedRead();
    OneRun(s);
  }

  /** The fast version orders s among the names with short runs exactly when no run of s has a negative value. */
  lemma OrdersWhen(s: string)
    requires CString(s)
    ensures NonNeg(s) <==> forall t: string, u: string {:trigger Lawful(s, t, u)} ::
      CString(t) && ShortRuns(t) && CString(u) && ShortRuns(u) ==> Lawful(s, t, u)
  {
    if NonNeg(s) {
      forall t: string, u: string {:trigger Lawful(s, t, u)} | CString(t) && ShortRuns(t) && CString(u) && ShortRuns(u)
        ensures Lawful(s, t, u)
      {
        ShortNonNeg(t);
        ShortNonNeg(u);
        SigOrder(s, t, u, true);
        SigOrder(t, s, u, true);
        SigOrder(t, u, s, true);
      }
    } else {
      var t, u := Unlawful(s);
      assert !Lawful(s, t, u);
    }
  }

  /* ---------- the fast version ---------- */

  lemma WrapAdd(x: int, d: int)
    ensures Wrap(Wrap(x) + d) == Wrap(x + d)
  {
  }

  lemma RunStep(s: string, i: nat, u: int)
    requires i < |s| && Digit(s[i])
    ensures Run(s[i..]) == 1 + Run(s[i + 1..])
    ensures var q := Wrap(Wrap(u * 10) + s[i] as int % 16); var n := Run(s[i + 1..]);
            -0x8000_0000 <= q < 0x8000_0000 && Read(u, s[i..i + 1 + n], true) == Read(q, s[i + 1..i + 1 + n], true)
  {
    WrapAdd(10 * u, s[i] as int % 16);
    var n := Run(s[i + 1..]);
    assert s[i..][1..] == s[i + 1..] && s[i..i + 1 + n][1..] == s[i + 1..i + 1 + n];
  }

  /** The inner loop of the fast version. */
  method ReadRun(s: string, i0: nat, u0: int) returns (i: nat, u: int)
    requires i0 <= |s| && -0x8000_0000 <= u0 < 0x8000_0000
    ensures i == i0 + Run(s[i0..]) && u == Read(u0, s[i0..i], true) && -0x8000_0000 <= u < 0x8000_0000
  {
    i, u := i0, u0;
    ghost var e := i0 + Run(s[i0..]);
    ghost var w := Read(u0, s[i0..e], true);
    while i < |s| && Digit(s[i])
      invariant i0 <= i <= e == i + Run(s[i..]) && -0x8000_0000 <= u < 0x8000_0000
      invariant Read(u, s[i..e], true) == w
    {
      RunStep(s, i, u);
      var next := Wrap(Wrap(u * 10) + s[i] as int % 16);
      assert e == i + 1 + Run(s[i + 1..]) && Read(next, s[i + 1..e], true) == w;
      u := next;
      i := i + 1;
    }
    assert e == i && s[i..i] == "";
  }

  lemma FirstDigit(s: string, i: nat, fast: bool)
    requires i < |s| && Digit(s[i])
    ensures Run(s[i..]) == 1 + Run(s[i + 1..])
    ensures Head(s[i..], fast) == Num(Read(s[i] as int % 16, s[i + 1..i + 1 + Run(s[i + 1..])], fast), s[i])
    ensures Tail(s[i..]) == s[i + 1 + Run(s[i + 1..])..]
  {
    var t := s[i..];
    assert t[1..] == s[i + 1..];
    assert t[..Run(t)][1..] == s[i + 1..i + 1 + Run(s[i + 1..])];
  }

  /** The character at i, the terminator at the end. */
  function At(s: string, i: nat): char
    requires i <= |s|
  {
    if i < |s| then s[i] else '\0'
  }

  lemma FrontAt(s: string, i: nat)
    requires i <= |s| && CString(s)
    ensures Front(s[i..]) == At(s, i) as int && (i < |s| <==> At(s, i) != '\0') && CString(s[i..])
  {
  }

  /** Two characters that are not both digits. */
  lemma CmpChars(s1: string, i: nat, s2: string, j: nat, fast: bool)
    requires CString(s1) && CString(s2) && i <= |s1| && j <= |s2| && !(Digit(At(s1, i)) && Digit(At(s2, j)))
    ensures At(s1, i) != At(s2, j) || i == |s1| ==> Cmp2(s1[i..], s2[j..], fast) == At(s1, i) as int - At(s2, j) as int
    ensures At(s1, i) == At(s2, j) && i < |s1| ==> j < |s2| && Cmp2(s1[i..], s2[j..], fast) == Cmp2(s1[i + 1..], s2[j + 1..], fast)
  {
    FrontAt(s1, i);
    FrontAt(s2, j);
    if i < |s1| && j < |s2| && s1[i] == s2[j] {
      assert Tail(s1[i..]) == s1[i + 1..] && Tail(s2[j..]) == s2[j + 1..];
    }
  }

  /** Two runs of digits, up to n1 and n2. */
  lemma CmpRuns(s1: string, i: nat, n1: nat, u1: int, s2: string, j: nat, n2: nat, u2: int, fast: bool)
    requires i < |s1| && j < |s2| && Digit(s1[i]) && Digit(s2[j])
    requires n1 == i + 1 + Run(s1[i + 1..]) && u1 == Read(s1[i] as int % 16, s1[i + 1..n1], fast)
    requires n2 == j + 1 + Run(s2[j + 1..]) && u2 == Read(s2[j] as int % 16, s2[j + 1..n2], fast)
    requires fast ==> -0x8000_0000 <= u1 < 0x8000_0000 && -0x8000_0000 <= u2 < 0x8000_0000
    ensures u1 == u2 ==> Cmp2(s1[i..], s2[j..], fast) == Cmp2(s1[n1..], s2[n2..], fast)
    ensures u1 != u2 ==> Cmp2(s1[i..], s2[j..], fast) == if fast then Wrap(u1 - u2) else u1 - u2
  {
    FirstDigit(s1, i, fast);
    FirstDigit(s2, j, fast);
    var d := if fast then Wrap(u1 - u2) else u1 - u2;
    if fast {
      WrapZero(u1 - u2);
    }
    CmpFirst(s1[i..], s2[j..], fast, d);
  }

  lemma WrapZero(x: int)
    requires -0x1_0000_0000 < x < 0x1_0000_0000
    ensures Wrap(x) == 0 <==> x == 0
  {
  }

  method SigCmp2Fast(s1: string, s2: string) returns (rc: int)
    requires CString(s1) && CString(s2)
    ensures rc == Cmp2(s1, s2, true)
  {
    var i: nat, j: nat := 0, 0;
    assert s1[0..] == s1 && s2[0..] == s2;
    while true
      invariant i <= |s1| && j <= |s2|
      invariant Cmp2(s1[i..], s2[j..], true) == Cmp2(s1, s2, true)
      decreases |s1| - i
    {
      var c1, c2 := At(s1, i), At(s2, j);
      if c1 == '\0' && c2 == '\0' {
        CmpChars(s1, i, s2, j, true);
        FrontAt(s1, i);
        return 0;
      }
      if Digit(c1) && Digit(c2) {
        var n2, u2 := ReadRun(s2, j + 1, c2 as int % 16);
        var n1, u1 := ReadRun(s1, i + 1, c1 as int % 16);
        CmpRuns(s1, i, n1, u1, s2, j, n2, u2, true);
        i, j := n1, n2;
        if u1 != u2 {
          return Wrap(u1 - u2);
        }
      } else {
        CmpChars(s1, i, s2, j, true);
        if c1 != c2 {
          return c1 as int - c2 as int;
        }
        i, j := i + 1, j + 1;
      }
    }
  }

  /* ---------- the exact version ---------- */

  lemma {:induction false} ReadLess(p: int, x: string, q: int, y: string)
    requires 0 <= p < q && |x| <= |y| && Digits(x) && Digits(y)
    ensures Read(p, x, false) < Read(q, y, false)
    decreases |y|
  {
    if |x| < |y| {
      ReadLess(p, x, 10 * q + (y[0] as int - '0' as int), y[1..]);
    } else if x != "" {
      ReadLess(10 * p + (x[0] as int - '0' as int), x[1..], 10 * q + (y[0] as int - '0' as int), y[1..]);
    }
  }

  /** Length of the run at i and the one character after it; n is where to go on, at most at the terminator. */
  method Measure(s: string, i: nat) returns (n: nat, len: nat)
    requires i < |s| && Digit(s[i]) && CString(s)
    ensures len == Run(s[i..]) + 1 && n == (if i + len <= |s| then i + len else |s|)
  {
    n, len := i, 0;
    var c := s[i];
    while Digit(c)
      invariant i <= n <= |s| + 1 && len == n - i && (n == i ==> c == s[i])
      invariant n > i ==> c == (if n - 1 < |s| then s[n - 1] else '\0')
      invariant n > i && Digit(c) ==> Run(s[i..]) == len + Run(s[n..])
      invariant n > i && !Digit(c) ==> Run(s[i..]) + 1 == len
      decreases |s| + 1 - n
    {
      len := len + 1;
      c := if n < |s| then s[n] else '\0';
      assert n < |s| ==> s[n..][1..] == s[n + 1..];
      n := n + 1;
    }
    if c == '\0' {
      n := n - 1;
    }
  }

  /** The runs' rests from i and j, after equal digits worth p; only zeros can have been matched against padding. */
  ghost predicate Aligned(s1: string, i: nat, e1: nat, s2: string, j: nat, e2: nat, p: int) {
    && i <= e1 <= |s1| && j <= e2 <= |s2| && 0 <= p && (e1 - i != e2 - j ==> p == 0)
    && Digits(s1[i..e1]) && Digits(s2[j..e2])
  }

  lemma AlignedStep(s1: string, i: nat, e1: nat, s2: string, j: nat, e2: nat, p: int)
    requires Aligned(s1, i, e1, s2, j, e2, p)
    ensures e1 - i < e2 - j ==> Digit(s2[j])
    ensures e1 - i < e2 - j && s2[j] == '0' ==> Aligned(s1, i, e1, s2, j + 1, e2, p) && Read(p, s2[j..e2], false) == Read(p, s2[j + 1..e2], false)
    ensures e1 - i < e2 - j && s2[j] != '0' ==> Read(p, s1[i..e1], false) < Read(p, s2[j..e2], false)
    ensures e2 - j < e1 - i ==> Digit(s1[i])
    ensures e2 - j < e1 - i && s1[i] == '0' ==> Aligned(s1, i + 1, e1, s2, j, e2, p) && Read(p, s1[i..e1], false) == Read(p, s1[i + 1..e1], false)
    ensures e2 - j < e1 - i && s1[i] != '0' ==> Read(p, s2[j..e2], false) < Read(p, s1[i..e1], false)
  {
    if e1 - i < e2 - j {
      assert s2[j..e2][1..] == s2[j + 1..e2] && s2[j] == s2[j..e2][0];
      if s2[j] != '0' {
        ReadLess(p, s1[i..e1], s2[j] as int - '0' as int, s2[j + 1..e2]);
      }
    }
    if e2 - j < e1 - i {
      assert s1[i..e1][1..] == s1[i + 1..e1] && s1[i] == s1[i..e1][0];
      if s1[i] != '0' {
        ReadLess(p, s2[j..e2], s1[i] as int - '0' as int, s1[i + 1..e1]);
      }
    }
  }

  lemma AlignedBoth(s1: string, i: nat, e1: nat, s2: string, j: nat, e2: nat, p: int)
    requires Aligned(s1, i, e1, s2, j, e2, p) && e1 - i == e2 - j > 0
    ensures Digit(s1[i]) && Digit(s2[j])
    ensures s1[i] < s2[j] ==> Read(p, s1[i..e1], false) < Read(p, s2[j..e2], false)
    ensures s1[i] > s2[j] ==> Read(p, s1[i..e1], false) > Read(p, s2[j..e2], false)
    ensures s1[i] == s2[j] ==> var q := 10 * p + (s1[i] as int - '0' as int);
      && Aligned(s1, i + 1, e1, s2, j + 1, e2, q)
      && Read(p, s1[i..e1], false) == Read(q, s1[i + 1..e1], false) && Read(p, s2[j..e2], false) == Read(q, s2[j + 1..e2], false)
  {
    assert s1[i..e1][1..] == s1[i + 1..e1] && s1[i] == s1[i..e1][0];
    assert s2[j..e2][1..] == s2[j + 1..e2] && s2[j] == s2[j..e2][0];
    var q1, q2 := 10 * p + (s1[i] as int - '0' as int), 10 * p + (s2[j] as int - '0' as int);
    if s1[i] < s2[j] {
      ReadLess(q1, s1[i + 1..e1], q2, s2[j + 1..e2]);
    } else if s1[i] > s2[j] {
      ReadLess(q2, s2[j + 1..e2], q1, s1[i + 1..e1]);
    }
  }

  /** The comparison stands at i and j of runs that end at e1 and e2, with values v1 and v2. */
  ghost predicate Padding(s1: string, i: nat, e1: nat, v1: int, s2: string, j: nat, e2: nat, v2: int, p: int) {
    && e1 <= |s1| && e2 <= |s2| && i <= e1 + 1 && j <= e2 + 1 && (i == e1 + 1 <==> j == e2 + 1)
    && (i <= e1 ==> Aligned(s1, i, e1, s2, j, e2, p) && Read(p, s1[i..e1], false) == v1 && Read(p, s2[j..e2], false) == v2)
    && (i == e1 + 1 ==> v1 == v2 && At(s1, e1) == At(s2, e2))
  }

  /** What comparing two runs, and the characters after them, comes to. */
  ghost predicate RunsCompared(rc: int, v1: int, v2: int, c1: char, c2: char) {
    && (v1 < v2 ==> rc < 0) && (v1 > v2 ==> rc > 0)
    && (v1 == v2 ==> rc == c1 as int - c2 as int)
  }

  /** The third inner loop: the shorter run is padded with zeros at the front. */
  method PadCompare(s1: string, i0: nat, length1: nat, s2: string, j0: nat, length2: nat) returns (rc: int)
    requires i0 < |s1| && j0 < |s2| && length1 == Run(s1[i0..]) + 1 && length2 == Run(s2[j0..]) + 1
    requires Digit(s1[i0]) && Digit(s2[j0])
    ensures var e1, e2 := i0 + length1 - 1, j0 + length2 - 1;
            RunsCompared(rc, Read(0, s1[i0..e1], false), Read(0, s2[j0..e2], false), At(s1, e1), At(s2, e2))
  {
    ghost var e1, e2 := i0 + length1 - 1, j0 + length2 - 1;
    ghost var v1, v2, p := Read(0, s1[i0..e1], false), Read(0, s2[j0..e2], false), 0;
    PaddingStart(s1, i0, e1, s2, j0, e2);
    var i, len1, j, len2 := i0, length1, j0, length2;
    while len1 != 0
      invariant len1 >= 0 && len2 >= 0 && i == e1 + 1 - len1 && j == e2 + 1 - len2
      invariant i >= 0 && j >= 0 && Padding(s1, i, e1, v1, s2, j, e2, v2, p)
      decreases len1 + len2
    {
      PaddingStep(s1, i, e1, v1, s2, j, e2, v2, p);
      var c1, c2;
      if len1 == len2 {
        c1, c2 := At(s1, i), At(s2, j);
        p := if len1 > 1 then 10 * p + (c1 as int - '0' as int) else p;
        i, len1, j, len2 := i + 1, len1 - 1, j + 1, len2 - 1;
      } else if len1 < len2 {
        c1, c2 := '0', At(s2, j);
        j, len2 := j + 1, len2 - 1;
      } else {
        c1, c2 := At(s1, i), '0';
        i, len1 := i + 1, len1 - 1;
      }
      if c1 != c2 {
        return c1 as int - c2 as int;
      }
    }
    return 0;
  }

  lemma PaddingStart(s1: string, i: nat, e1: nat, s2: string, j: nat, e2: nat)
    requires i <= |s1| && j <= |s2| && e1 == i + Run(s1[i..]) && e2 == j + Run(s2[j..])
    ensures e1 <= |s1| && e2 <= |s2|
    ensures Padding(s1, i, e1, Read(0, s1[i..e1], false), s2, j, e2, Read(0, s2[j..e2], false), 0)
  {
    RunIsDigits(s1, i);
    RunIsDigits(s2, j);
  }

  lemma RunIsDigits(s: string, i: nat)
    requires i <= |s|
    ensures i + Run(s[i..]) <= |s| && Digits(s[i..i + Run(s[i..])])
  {
  }

  lemma PaddingStep(s1: string, i: nat, e1: nat, v1: int, s2: string, j: nat, e2: nat, v2: int, p: int)
    requires Padding(s1, i, e1, v1, s2, j, e2, v2, p) && i <= e1
    ensures e1 - i == e2 - j ==>
      var c1, c2 := At(s1, i), At(s2, j);
      if c1 == c2 then Padding(s1, i + 1, e1, v1, s2, j + 1, e2, v2, if i < e1 then 10 * p + (c1 as int - '0' as int) else p)
      else RunsCompared(c1 as int - c2 as int, v1, v2, At(s1, e1), At(s2, e2))
    ensures e1 - i < e2 - j ==>
      if At(s2, j) == '0' then Padding(s1, i, e1, v1, s2, j + 1, e2, v2, p)
      else RunsCompared('0' as int - At(s2, j) as int, v1, v2, At(s1, e1), At(s2, e2))
    ensures e1 - i > e2 - j ==>
      if At(s1, i) == '0' then Padding(s1, i + 1, e1, v1, s2, j, e2, v2, p)
      else RunsCompared(At(s1, i) as int - '0' as int, v1, v2, At(s1, e1), At(s2, e2))
  {
    if e1 - i == e2 - j {
      if i < e1 {
        AlignedBoth(s1, i, e1, s2, j, e2, p);
      } else {
        assert s1[e1..e1] == "" && s2[e2..e2] == "";
      }
    } else {
      AlignedStep(s1, i, e1, s2, j, e2, p);
    }
  }

  lemma RunHead(s: string, i: nat, e: nat)
    requires i < |s| && Digit(s[i]) && e == i + Run(s[i..])
    ensures e <= |s| && !Digit(At(s, e)) && Head(s[i..], false) == Num(Read(0, s[i..e], false), s[i]) && Tail(s[i..]) == s[e..]
  {
    assert s[i..][..Run(s[i..])] == s[i..e];
  }

  lemma CmpRunHeads(s1: string, i: nat, e1: nat, s2: string, j: nat, e2: nat)
    requires i < |s1| && j < |s2| && Digit(s1[i]) && Digit(s2[j]) && e1 == i + Run(s1[i..]) && e2 == j + Run(s2[j..])
    ensures e1 <= |s1| && e2 <= |s2| && !Digit(At(s1, e1)) && !Digit(At(s2, e2))
    ensures var v1, v2 := Read(0, s1[i..e1], false), Read(0, s2[j..e2], false);
            Cmp2(s1[i..], s2[j..], false) == if v1 != v2 then v1 - v2 else Cmp2(s1[e1..], s2[e2..], false)
  {
    RunHead(s1, i, e1);
    RunHead(s2, j, e2);
  }

  /** A run and the character after it are compared as one unit; the scan goes on after that character. */
  lemma CmpUnits(s1: string, i: nat, n1: nat, e1: nat, s2: string, j: nat, n2: nat, e2: nat, d: int)
    requires CString(s1) && CString(s2) && i < |s1| && j < |s2| && Digit(s1[i]) && Digit(s2[j])
    requires e1 == i + Run(s1[i..]) && n1 == (if e1 < |s1| then e1 + 1 else |s1|)
    requires e2 == j + Run(s2[j..]) && n2 == (if e2 < |s2| then e2 + 1 else |s2|)
    requires RunsCompared(d, Read(0, s1[i..e1], false), Read(0, s2[j..e2], false), At(s1, e1), At(s2, e2))
    ensures d != 0 ==> (d < 0 <==> Cmp2(s1[i..], s2[j..], false) < 0) && Cmp2(s1[i..], s2[j..], false) != 0
    ensures d == 0 ==> Cmp2(s1[i..], s2[j..], false) == Cmp2(s1[n1..], s2[n2..], false)
  {
    CmpRunHeads(s1, i, e1, s2, j, e2);
    CmpChars(s1, e1, s2, e2, false);
    FrontAt(s1, e1);
    FrontAt(s2, e2);
  }

  /** Runs of digits at i and j, with the characters after them. */
  method CompareUnits(s1: string, i: nat, s2: string, j: nat) returns (d: int, n1: nat, n2: nat)
    requires CString(s1) && CString(s2) && i < |s1| && j < |s2| && Digit(s1[i]) && Digit(s2[j])
    ensures i < n1 <= |s1| && j < n2 <= |s2|
    ensures d != 0 ==> (d < 0 <==> Cmp2(s1[i..], s2[j..], false) < 0) && Cmp2(s1[i..], s2[j..], false) != 0
    ensures d == 0 ==> Cmp2(s1[i..], s2[j..], false) == Cmp2(s1[n1..], s2[n2..], false)
  {
    var len1, len2;
    n1, len1 := Measure(s1, i);
    n2, len2 := Measure(s2, j);
    d := PadCompare(s1, i, len1, s2, j, len2);
    CmpUnits(s1, i, n1, i + len1 - 1, s2, j, n2, j + len2 - 1, d);
  }

  /** The exact version: its sign is that of the comparison by tokens. */
  method SigCmp2Exact(s1: string, s2: string) returns (rc: int)
    requires CString(s1) && CString(s2)
    ensures (rc < 0 <==> Cmp2(s1, s2, false) < 0) && (rc == 0 <==> Cmp2(s1, s2, false) == 0)
  {
    var i: nat, j: nat := 0, 0;
    assert s1[0..] == s1 && s2[0..] == s2;
    while true
      invariant i <= |s1| && j <= |s2|
      invariant Cmp2(s1[i..], s2[j..], false) == Cmp2(s1, s2, false)
      decreases |s1| - i
    {
      var c1, c2 := At(s1, i), At(s2, j);
      if c1 == '\0' && c2 == '\0' {
        CmpChars(s1, i, s2, j, false);
        FrontAt(s1, i);
        return 0;
      }
      if Digit(c1) && Digit(c2) {
        var d, n1, n2 := CompareUnits(s1, i, s2, j);
        if d != 0 {
          return d;
        }
        i, j := n1, n2;
      } else {
        CmpChars(s1, i, s2, j, false);
        if c1 != c2 {
          return c1 as int - c2 as int;
        }
        i, j := i + 1, j + 1;
      }
    }
  }

  /** sigcmp, with the version of sigcmp_2 chosen when the program is built. */
  method Compare(s1: string, s2: string, fast: bool) returns (rc: int)
    requires CString(s1) && CString(s2)
    ensures (rc < 0 <==> Sig(s1, s2, fast) < 0) && (rc == 0 <==> Sig(s1, s2, fast) == 0)
  {
    if fast {
      rc := SigCmp2Fast(s1, s2);
    } else {
      rc := SigCmp2Exact(s1, s2);
    }
    if rc == 0 {
      rc := StrCmp(s1, s2);
    }
  }
}
