/** Times as text: a number and a unit. */
module TimeText {
  datatype Option<+T> = None | Some(value: T)

  const TIME_PREFIX := " munpfaz"

  const MIN64 := -0x8000_0000_0000_0000
  const MAX64 := 0x7FFF_FFFF_FFFF_FFFF

  function Wrap64(x: int): int {
    (x - MIN64) % 0x1_0000_0000_0000_0000 + MIN64
  }

  predicate Digit(c: char) {
    '0' <= c <= '9'
  }

  /** Where c stands in s, as strchr finds it; -1 if nowhere. The terminator stands behind the text. */
  function IndexOf(s: string, c: char): (k: int)
    ensures -1 <= k <= |s| && (k == |s| ==> c == '\0') && (0 <= k < |s| ==> s[k] == c)
    ensures k < 0 ==> c !in s && c != '\0'
  {
    if s == "" then (if c == '\0' then 0 else -1) else if s[0] == c then 0 else
      var k := IndexOf(s[1..], c); if k < 0 then -1 else k + 1
  }

  /** a times the n-th power of 1000. */
  function Thousands(a: nat, n: nat): (p: nat)
    ensures a <= p
    decreases n
  {
    if n == 0 then a else Thousands(a * 1000, n - 1)
  }

  lemma {:induction false} ThousandsMore(a: nat, n: nat)
    ensures Thousands(a, n + 1) == 1000 * Thousands(a, n)
    decreases n
  {
    if n > 0 {
      ThousandsMore(a * 1000, n - 1);
    }
  }

  /* ---------- printing ---------- */

  /** A number as the printf conversion shows it. */
  function Decimal(n: nat): (s: string)
    ensures s != "" && forall i :: 0 <= i < |s| ==> Digit(s[i])
  {
    var d := [(n % 10 + '0' as int) as char];
    if n < 10 then d else Decimal(n / 10) + d
  }

  /** The place of the unit in the prefixes; an unknown one counts as seconds. */
  function Offset(dim: char): (k: nat)
    ensures k <= 8
  {
    var k := IndexOf(TIME_PREFIX, dim);
    if k < 0 then 0 else k
  }

  /** The value in the largest unit that shows it exactly, but not beyond seconds. */
  function Reduced(val: nat, i: nat): (r: (nat, nat))
    ensures r.1 <= i && val == Thousands(r.0, i - r.1)
    decreases i
  {
    if i == 0 || val % 1000 != 0 then (val, i)
    else
      var r := Reduced(val / 1000, i - 1);
      ThousandsMore(r.0, i - 1 - r.1);
      r
  }

  /** No larger unit does. */
  lemma {:induction false} ReducedMost(val: nat, i: nat)
    ensures var r := Reduced(val, i); r.1 == 0 || r.0 % 1000 != 0
    decreases i
  {
    if i > 0 && val % 1000 == 0 {
      ReducedMost(val / 1000, i - 1);
    }
  }

  /** The unit at place i; at place 8 the terminator is printed and ends the text. */
  function UnitText(i: nat): string
    requires i <= 8
  {
    if i == 0 then " sec" else if i == 8 then " " else [' ', TIME_PREFIX[i], 's']
  }

  function Text(neg: bool, a: nat, i: nat): string
    requires i <= 8
  {
    (if neg then "-" else "") + Decimal(a) + UnitText(i)
  }

  /** The text for a value that counts the unit at place k. */
  function TextAt(val: int, k: nat): string
    requires k <= 8
  {
    var r := Reduced(if val < 0 then -val else val, k);
    Text(val < 0, r.0, r.1)
  }

  function Formatted(val: int, dim: char): string {
    TextAt(val, Offset(dim))
  }

  method StrChr(s: string, c: char) returns (k: int)
    ensures k == IndexOf(s, c)
  {
    var i := 0;
    while i < |s|
      invariant 0 <= i <= |s|
      invariant IndexOf(s, c) == var k := IndexOf(s[i..], c); if k < 0 then -1 else i + k
    {
      if s[i] == c {
        return i;
      }
      i := i + 1;
    }
    return if c == '\0' then i else -1;
  }

  /** reformat_time_simple; the smallest value cannot be negated. */
  method ReformatTimeSimple(val0: int, dim: char) returns (buf: string)
    requires MIN64 < val0 <= MAX64
    ensures buf == Formatted(val0, dim)
  {
    var val := val0;
    buf := "";
    if val < 0 {
      val := -val;
      buf := "-";
    }
    var k := StrChr(TIME_PREFIX, dim);
    var i := if k >= 0 then k else 0;
    ghost var r := Reduced(val, i);
    while i > 0
      invariant 0 <= i <= 8 && 0 <= val && Reduced(val, i) == r
    {
      if val % 1000 != 0 {
        break;
      }
      val := val / 1000;
      i := i - 1;
    }
    buf := Print(buf, val, i);
  }

  method Print(buf0: string, val: nat, i: nat) returns (buf: string)
    requires i <= 8
    ensures buf == buf0 + Decimal(val) + UnitText(i)
  {
    if i == |TIME_PREFIX| {
      buf := buf0 + Decimal(val) + " ";
    } else if i != 0 {
      buf := buf0 + Decimal(val) + [' ', TIME_PREFIX[i], 's'];
    } else {
      buf := buf0 + Decimal(val) + " sec";
    }
  }

  /* ---------- reading a number ---------- */

  /** What atoi_64 returns and where it leaves its continuation pointer. */
  datatype Number = Number(val: int, cont: Option<string>)

  function Scan(s: string, val: int, neg: bool, consumed: bool): Number {
    if s == "" then Number(if neg then Wrap64(-val) else val, None)
    else if Digit(s[0]) then Scan(s[1..], Wrap64(val * 10 + (s[0] as int - '0' as int)), neg, true)
    else if s[0] == '-' && val == 0 && !neg then Scan(s[1..], val, true, true)
    else if consumed then Number(if neg then Wrap64(-val) else val, Some(s))
    else Scan(s[1..], val, neg, consumed)
  }

  function Atoi(s: string): Number {
    if s == "" then Number(0, None)
    else if s[0] == 'y' || s[0] == 'Y' then Number(1, None)
    else if s[0] == 'o' || s[0] == 'O' then Number(if |s| > 1 && (s[1] == 'n' || s[1] == 'N') then 1 else 0, None)
    else if s[0] == 'n' || s[0] == 'N' then Number(0, None)
    else Scan(s, 0, false, false)
  }

  method Atoi64(str: string) returns (n: Number)
    ensures n == Atoi(str)
  {
    if str != "" {
      if str[0] == 'y' || str[0] == 'Y' {
        return Number(1, None);
      }
      if str[0] == 'o' || str[0] == 'O' {
        if |str| > 1 && (str[1] == 'n' || str[1] == 'N') {
          return Number(1, None);
        }
        return Number(0, None);
      }
      if str[0] == 'n' || str[0] == 'N' {
        return Number(0, None);
      }
    }
    var val, nflag, consumed, i := 0, false, false, 0;
    var cont: Option<string> := None;
    assert str[0..] == str;
    while i < |str|
      invariant 0 <= i <= |str| && Scan(str[i..], val, nflag, consumed) == Scan(str, 0, false, false)
    {
      var ch := str[i];
      assert str[i..][0] == ch && str[i..][1..] == str[i + 1..];
      if Digit(ch) {
        val := Wrap64(val * 10 + ch as int % 16);
        consumed := true;
      } else if ch == '-' && val == 0 && !nflag {
        nflag := true;
        consumed := true;
      } else if consumed {
        return Number(if nflag then Wrap64(-val) else val, Some(str[i..]));
      }
      i := i + 1;
    }
    n := Number(if nflag then Wrap64(-val) else val, None);
  }

  /* ---------- reading a time ---------- */

  function ToLower(c: char): char {
    if 'A' <= c <= 'Z' then (c as int + 32) as char else c
  }

  /** The place of the unit that follows a number, or -1. */
  function UnitAfter(s: string): (k: int)
    ensures -1 <= k < 8
  {
    if s == "" || s[0] == '\0' then -1
    else if s[0] == ' ' || s[0] == '\t' then UnitAfter(s[1..])
    else IndexOf(TIME_PREFIX, if ToLower(s[0]) == 's' then ' ' else ToLower(s[0]))
  }

  function Quotient(x: int): int {
    if x >= 0 then x / 1000 else -((-x) / 1000)
  }

  function Scaled(x: int, delta: int): int
    decreases if delta < 0 then -delta else delta
  {
    if delta == 0 then x else if delta > 0 then Scaled(Wrap64(x * 1000), delta - 1) else Scaled(Quotient(x), delta + 1)
  }

  /** The place of the asked-for unit, or -1. */
  function Place(dim: char): (k: int)
    ensures -1 <= k <= 8
  {
    if dim == 'S' || dim == 's' then 0 else IndexOf(TIME_PREFIX, dim)
  }

  /** The value that a text has when the unit at place doffs is asked for. */
  function ValueAt(s: string, doffs: int): int {
    var n := Atoi(s);
    Moved(n.val, if n.cont.Some? then UnitAfter(n.cont.value) else -1, doffs)
  }

  function UnformattedSimple(s: string, dim: char): int {
    ValueAt(s, Place(dim))
  }

  /** The number moved from the unit read to the one asked for, if both are known. */
  function Moved(val: int, offs: int, doffs: int): int {
    if offs < 0 || doffs < 0 then val else Scaled(val, doffs - offs)
  }

  /** The first c asks for the reading as a real; an e or E never does. */
  predicate Complex(s: string, c: char) {
    var k := IndexOf(s, c);
    0 <= k < |s| && ToLower(s[k]) != 'e' && (k + 1 < |s| ==> ToLower(s[k + 1]) != 'c')
  }

  /** unformat_time; None is the floating-point reading. marker gives the time of a named marker. */
  function Unformatted(s: string, dim: char, marker: string -> Option<int>): Option<int> {
    if s != "" && (s[0] == 'M' || s[0] == 'm') && marker(s[1..]).Some? then marker(s[1..])
    else if Complex(s, '.') || Complex(s, '+') || Complex(s, 'e') || Complex(s, 'E') then None
    else Some(UnformattedSimple(s, dim))
  }

  /** The unit behind the number. */
  method FindUnit(p: string) returns (offs: int)
    ensures offs == UnitAfter(p)
  {
    var i := 0;
    assert p[0..] == p;
    while i < |p| && p[i] != '\0'
      invariant 0 <= i <= |p| && UnitAfter(p[i..]) == UnitAfter(p)
    {
      assert p[i..][0] == p[i] && p[i..][1..] == p[i + 1..];
      if p[i] == ' ' || p[i] == '\t' {
        i := i + 1;
        continue;
      }
      var ich := ToLower(p[i]);
      if ich == 's' {
        ich := ' ';
      }
      offs := StrChr(TIME_PREFIX, ich);
      return;
    }
    offs := -1;
  }

  method Scale(x: int, delta: int) returns (rval: int)
    ensures rval == Scaled(x, delta)
  {
    rval := x;
    if delta < 0 {
      for i := delta to 0
        invariant Scaled(rval, i) == Scaled(x, delta)
      {
        rval := Quotient(rval);
      }
    } else {
      for i := 0 to delta
        invariant Scaled(rval, delta - i) == Scaled(x, delta)
      {
        rval := Wrap64(rval * 1000);
      }
    }
  }

  method UnformatTimeSimple(buf: string, dim: char) returns (rval: int)
    ensures rval == UnformattedSimple(buf, dim)
  {
    var n := Atoi64(buf);
    rval := n.val;
    var offs := -1;
    if n.cont.Some? {
      offs := FindUnit(n.cont.value);
    }
    if offs < 0 {
      return;
    }
    var doffs := 0;
    if dim != 'S' && dim != 's' {
      doffs := StrChr(TIME_PREFIX, dim);
      if doffs < 0 {
        return;
      }
    }
    rval := Scale(rval, doffs - offs);
  }

  method UnformatTime(s: string, dim: char, marker: string -> Option<int>) returns (r: Option<int>)
    ensures r == Unformatted(s, dim, marker)
  {
    if s != "" && (s[0] == 'M' || s[0] == 'm') {
      var m := marker(s[1..]);
      if m.Some? {
        return m;
      }
    }
    var compar := ['.', '+', 'e', 'E'];
    for i := 0 to 4
      invariant forall j :: 0 <= j < i ==> !Complex(s, compar[j])
    {
      var k := StrChr(s, compar[i]);
      if 0 <= k < |s| && ToLower(s[k]) != 'e' && !(k + 1 < |s| && ToLower(s[k + 1]) == 'c') {
        return None;
      }
    }
    assert !Complex(s, compar[0]) && !Complex(s, compar[1]) && !Complex(s, compar[2]) && !Complex(s, compar[3]);
    var v := UnformatTimeSimple(s, dim);
    r := Some(v);
  }

  /* ---------- the round trip ---------- */

  lemma {:induction false} ScanDecimal(n: nat, t: string, neg: bool, consumed: bool)
    requires n <= MAX64
    ensures Scan(Decimal(n) + t, 0, neg, consumed) == Scan(t, n, neg, true)
  {
    var d := [(n % 10 + '0' as int) as char];
    assert (d + t)[1..] == t;
    if n >= 10 {
      assert Decimal(n) + t == Decimal(n / 10) + (d + t);
      ScanDecimal(n / 10, d + t, neg, consumed);
      assert Wrap64(n / 10 * 10 + n % 10) == n;
    } else {
      assert Wrap64(0 * 10 + n) == n;
    }
  }

  lemma UnitIsFound(i: nat)
    requires i < 8
    ensures UnitAfter(UnitText(i)) == i
  {
    if i == 0 {
      assert UnitText(0)[1..] == "sec";
    } else {
      var t := UnitText(i);
      assert t[1..] == [TIME_PREFIX[i], 's'];
      PrefixPlace(i);
    }
  }

  /** The prefixes are distinct, and none is a capital or an s. */
  lemma PrefixPlace(i: nat)
    requires 1 <= i < 8
    ensures IndexOf(TIME_PREFIX, TIME_PREFIX[i]) == i
    ensures ToLower(TIME_PREFIX[i]) == TIME_PREFIX[i] && TIME_PREFIX[i] != 's' && TIME_PREFIX[i] != ' ' && TIME_PREFIX[i] != '\t'
  {
    FirstPlace(TIME_PREFIX, i);
  }

  lemma {:induction false} FirstPlace(s: string, i: nat)
    requires i < |s| && forall j :: 0 <= j < i ==> s[j] != s[i]
    ensures IndexOf(s, s[i]) == i
  {
    if i > 0 {
      assert s[1..][i - 1] == s[i];
      FirstPlace(s[1..], i - 1);
    }
  }

  function Signed(neg: bool, a: int): int {
    if neg then -a else a
  }

  lemma {:induction false} ScaledBack(a: nat, n: nat, neg: bool)
    requires Thousands(a, n) <= MAX64
    ensures Scaled(Signed(neg, a), n) == Signed(neg, Thousands(a, n))
    decreases n
  {
    if n > 0 {
      assert a * 1000 <= Thousands(a * 1000, n - 1);
      ScaledBack(a * 1000, n - 1, neg);
      assert Wrap64(Signed(neg, a) * 1000) == Signed(neg, a * 1000);
    }
  }

  lemma TextPlain(neg: bool, a: nat, i: nat)
    requires i <= 8
    ensures Plain(Text(neg, a, i))
  {
    var d, u := Decimal(a), UnitText(i);
    assert forall i :: 0 <= i < |d| ==> Digit(d[i]);
    assert '.' !in u && '+' !in u;
  }

  lemma AtoiSigned(s: string, t: string)
    requires s != "" && s[0] == '-' && s[1..] == t
    ensures Atoi(s) == Scan(t, 0, true, true)
  {
  }

  lemma ScanUnit(a: nat, u: string, neg: bool)
    requires a <= MAX64 && u != "" && u[0] == ' '
    ensures Scan(u, a, neg, true) == Number(Signed(neg, a), Some(u))
  {
    assert !Digit(u[0]) && u[0] != '-';
    assert Wrap64(Signed(true, a)) == Signed(true, a);
  }

  lemma AtoiFormatted(a: nat, u: string, neg: bool)
    requires a <= MAX64 && u != "" && u[0] == ' '
    ensures Atoi((if neg then "-" else "") + Decimal(a) + u) == Number(Signed(neg, a), Some(u))
  {
    var d := Decimal(a);
    ScanDecimal(a, u, neg, neg);
    ScanUnit(a, u, neg);
    if neg {
      AtoiSigned("-" + d + u, d + u);
    } else {
      assert "" + d + u == d + u && (d + u)[0] == d[0] && Digit(d[0]);
    }
  }

  /** Every time but the smallest is read back as printed, in every unit. */
  lemma TimeRoundTrip(val: int, dim: char, marker: string -> Option<int>)
    requires MIN64 < val <= MAX64
    ensures Unformatted(Formatted(val, dim), dim, marker) == Some(val)
  {
    PlaceIs(dim);
    ReadBack(val, Offset(dim), Place(dim));
    UnformattedPlain(Formatted(val, dim), dim, marker);
  }

  /** The same for the unit at place k, looked up at doffs. */
  lemma ReadBack(val: int, k: nat, doffs: int)
    requires MIN64 < val <= MAX64 && k <= 8 && (doffs == k || (doffs < 0 && k == 0))
    ensures Plain(TextAt(val, k)) && ValueAt(TextAt(val, k), doffs) == val
  {
    var m, neg := if val < 0 then -val else val, val < 0;
    var r := Reduced(m, k);
    TextBack(neg, r.0, r.1, k, doffs);
  }

  /** Neither a marker nor a real. */
  ghost predicate Plain(s: string) {
    s != "" && s[0] != 'M' && s[0] != 'm' && '.' !in s && '+' !in s
  }

  lemma TextBack(neg: bool, a: nat, i: nat, k: nat, doffs: int)
    requires i <= k <= 8 && Thousands(a, k - i) <= MAX64 && (doffs == k || (doffs < 0 && k == 0))
    ensures Plain(Text(neg, a, i)) && ValueAt(Text(neg, a, i), doffs) == Signed(neg, Thousands(a, k - i))
  {
    TextPlain(neg, a, i);
    UnitStarts(i);
    UnitRead(i);
    AtoiFormatted(a, UnitText(i), neg);
    MovedBack(a, i, k, doffs, neg);
  }

  /* ---------- what is read ---------- */

  function Power(n: nat): nat {
    if n == 0 then 1 else 1000 * Power(n - 1)
  }

  lemma {:induction false} ThousandsPower(a: nat, n: nat)
    ensures Thousands(a, n) == a * Power(n)
    decreases n
  {
    if n > 0 {
      ThousandsPower(a * 1000, n - 1);
      assert a * 1000 * Power(n - 1) == a * (1000 * Power(n - 1));
    }
  }

  lemma Divided(a: nat, p: nat)
    requires 0 < p
    ensures 0 < 1000 * p && a / 1000 / p == a / (1000 * p)
  {
    var q, r := a / (1000 * p), a % (1000 * p);
    assert a == q * (1000 * p) + r;
    var s := r / 1000;
    assert a / 1000 == q * p + s by { assert a == 1000 * (q * p) + r; }
    assert 0 <= s < p;
    QuotientIs(a / 1000, p, q, s);
  }

  lemma QuotientIs(x: nat, p: nat, q: nat, s: nat)
    requires x == q * p + s && s < p
    ensures x / p == q
  {
    assert (x / p - q) * p == s - x % p;
    Multiple(x / p - q, p);
  }

  /** The only multiple of p between -p and p is 0. */
  lemma Multiple(k: int, p: int)
    requires 0 < p
    ensures -p < k * p < p ==> k == 0
  {
    if k >= 1 {
      assert k * p == p + (k - 1) * p && (k - 1) * p >= 0;
    } else if k <= -1 {
      assert k * p == -p + (k + 1) * p && (k + 1) * p <= 0;
    }
  }

  lemma {:induction false} PowerPositive(n: nat)
    ensures 0 < Power(n)
  {
    if n > 0 {
      PowerPositive(n - 1);
    }
  }

  /** Going down n units divides, truncating toward zero. */
  lemma {:induction false} ScaledDown(a: nat, n: nat, neg: bool)
    ensures 0 < Power(n) && Scaled(Signed(neg, a), -(n as int)) == Signed(neg, a / Power(n))
  {
    PowerPositive(n);
    if n > 0 {
      ScaledDown(a / 1000, n - 1, neg);
      Divided(a, Power(n - 1));
      assert Quotient(Signed(neg, a)) == Signed(neg, a / 1000);
    }
  }

  /** What is printed of a value in the unit at place k: sign, number and the largest unit that make it up. */
  lemma PrintsAs(val: int, k: nat) returns (a: nat, i: nat)
    requires k <= 8
    ensures i <= k && TextAt(val, k) == (if val < 0 then "-" else "") + Decimal(a) + UnitText(i)
    ensures val == Signed(val < 0, a * Power(k - i)) && (i > 0 ==> a % 1000 != 0)
  {
    var m := if val < 0 then -val else val;
    var r := Reduced(m, k);
    a, i := r.0, r.1;
    ReducedMost(m, k);
    ThousandsPower(a, k - i);
  }

  /** A number printed with the unit at place i, read for the unit at place k: multiplied, or divided toward zero. */
  lemma ReadsAs(neg: bool, a: nat, i: nat, k: nat)
    requires a <= MAX64 && i < 8 && k < 8 && (i <= k ==> a * Power(k - i) <= MAX64)
    ensures i <= k ==> ValueAt(Text(neg, a, i), k) == Signed(neg, a * Power(k - i))
    ensures i > k ==> 0 < Power(i - k) && ValueAt(Text(neg, a, i), k) == Signed(neg, a / Power(i - k))
  {
    UnitStarts(i);
    UnitRead(i);
    AtoiFormatted(a, UnitText(i), neg);
    if i <= k {
      ThousandsPower(a, k - i);
      ScaledBack(a, k - i, neg);
    } else {
      ScaledDown(a, i - k, neg);
    }
  }

  /** The units, coarse to fine. */
  lemma UnitTable()
    ensures UnitText(0) == " sec" && UnitText(1) == " ms" && UnitText(2) == " us" && UnitText(3) == " ns"
    ensures UnitText(4) == " ps" && UnitText(5) == " fs" && UnitText(6) == " as" && UnitText(7) == " zs"
  {
  }

  /** A unit has the place of the one printed with its letter, in printing and in reading. */
  lemma PlaceOf(dim: char, k: nat)
    requires k < 8 && if k == 0 then dim == 's' || dim == 'S' else UnitText(k) == [' ', dim, 's']
    ensures Place(dim) == k && Offset(dim) == k
  {
    if k > 0 {
      assert UnitText(k)[1] == dim;
      PrefixPlace(k);
    } else {
      SecondsPlace();
    }
  }

  /** A number in decimal: its last digit behind the rest, and no 0 in front. */
  lemma {:induction false} DecimalIs(n: nat)
    ensures n >= 10 ==> Decimal(n)[0] != '0'
    ensures n < 10 ==> Decimal(n) == [['0', '1', '2', '3', '4', '5', '6', '7', '8', '9'][n]]
    ensures n >= 10 ==> Decimal(n) == Decimal(n / 10) + Decimal(n % 10)
  {
    if n >= 10 {
      DecimalIs(n / 10);
    }
  }

  /** Anything in front of a number is skipped, but for the first letters of yes, on and no, a digit, or a minus sign. */
  lemma {:induction false} JunkSkipped(j: string, n: nat)
    requires n <= MAX64 && (forall i :: 0 <= i < |j| ==> !('0' <= j[i] <= '9') && j[i] != '-')
    requires j != "" ==> j[0] !in ['y', 'Y', 'o', 'O', 'n', 'N']
    ensures Atoi(j + Decimal(n)) == Number(n, None)
  {
    var d := Decimal(n);
    ScanDecimal(n, "", false, false);
    assert d + "" == d && Wrap64(n) == n;
    SkipJunk(j, d);
    if j == "" {
      assert j + d == d && Digit(d[0]);
    } else {
      assert (j + d)[0] == j[0];
    }
  }

  /** Words: yes and on are 1, other words with o, and no, are 0. */
  lemma WordRead(s: string)
    requires s != "" && s[0] in ['y', 'Y', 'o', 'O', 'n', 'N']
    ensures Atoi(s) == Number(if s[0] in ['y', 'Y'] || (s[0] in ['o', 'O'] && |s| >= 2 && s[1] in ['n', 'N']) then 1 else 0, None)
  {
  }

  lemma {:induction false} SkipJunk(j: string, d: string)
    requires forall i :: 0 <= i < |j| ==> !Digit(j[i]) && j[i] != '-'
    ensures Scan(j + d, 0, false, false) == Scan(d, 0, false, false)
  {
    if j == "" {
      assert j + d == d;
    } else {
      assert (j + d)[1..] == j[1..] + d;
      SkipJunk(j[1..], d);
    }
  }

  /** A . or + that is not followed by c or C asks for a real, unless the text is a marker's. */
  lemma RealRead(pre: string, c: char, post: string, dim: char, marker: string -> Option<int>)
    requires (c == '.' || c == '+') && c !in pre && (post == "" || (post[0] != 'c' && post[0] != 'C'))
    requires var s := pre + [c] + post; s[0] != 'M' && s[0] != 'm'
    ensures Unformatted(pre + [c] + post, dim, marker) == None
  {
    var s := pre + [c] + post;
    assert s[|pre|] == c && (post != "" ==> s[|pre| + 1] == post[0]);
    forall j | 0 <= j < |pre| ensures s[j] != c { assert s[j] == pre[j]; }
    FirstPlace(s, |pre|);
  }

  /** A . or + that is followed by c does not. */
  lemma NotReal(pre: string, c: char, post: string, dim: char, marker: string -> Option<int>)
    requires (c == '.' || c == '+') && '.' !in pre && '+' !in pre && post != "" && (post[0] == 'c' || post[0] == 'C')
    requires (if c == '.' then '+' else '.') !in post
    requires var s := pre + [c] + post; s[0] != 'M' && s[0] != 'm'
    ensures Unformatted(pre + [c] + post, dim, marker) == Some(UnformattedSimple(pre + [c] + post, dim))
  {
    var s := pre + [c] + post;
    assert s[|pre|] == c && s[|pre| + 1] == post[0];
    forall j | 0 <= j < |pre| ensures s[j] != c { assert s[j] == pre[j]; }
    FirstPlace(s, |pre|);
    assert (if c == '.' then '+' else '.') !in s;
  }

  /** A unit is read by its first letter, large or small, behind blanks and tabs. */
  lemma {:induction false} UnitLetter(blanks: string, c: char, post: string, k: nat)
    requires k < 8 && forall j :: 0 <= j < |blanks| ==> blanks[j] == ' ' || blanks[j] == '\t'
    requires var d := if 'A' <= c <= 'Z' then c - 'A' + 'a' else c; if k == 0 then d == 's' else UnitText(k) == [' ', d, 's']
    ensures UnitAfter(blanks + [c] + post) == k
    decreases |blanks|
  {
    if blanks == "" {
      assert blanks + [c] + post == [c] + post;
      if k > 0 {
        assert UnitText(k)[1] == ToLower(c);
        PrefixPlace(k);
      }
    } else {
      assert (blanks + [c] + post)[1..] == blanks[1..] + [c] + post;
      UnitLetter(blanks[1..], c, post, k);
    }
  }

  lemma UnformattedPlain(s: string, dim: char, marker: string -> Option<int>)
    requires Plain(s)
    ensures Unformatted(s, dim, marker) == Some(UnformattedSimple(s, dim))
  {
    NotComplex(s);
  }

  lemma UnitStarts(i: nat)
    requires i <= 8
    ensures UnitText(i) != "" && UnitText(i)[0] == ' '
  {
  }

  lemma NotComplex(s: string)
    requires '.' !in s && '+' !in s
    ensures !(Complex(s, '.') || Complex(s, '+') || Complex(s, 'e') || Complex(s, 'E'))
  {
  }

  /** The unit printed for place i is read back, but for the terminator, which is none. */
  lemma UnitRead(i: nat)
    requires i <= 8
    ensures UnitAfter(UnitText(i)) == if i < 8 then i else -1
  {
    if i < 8 {
      UnitIsFound(i);
    } else {
      assert UnitText(8)[1..] == "";
    }
  }

  lemma MovedBack(a: nat, i: nat, k: nat, doffs: int, neg: bool)
    requires i <= k <= 8 && Thousands(a, k - i) <= MAX64 && (doffs == k || (doffs < 0 && k == 0))
    ensures Moved(Signed(neg, a), if i < 8 then i else -1, doffs) == Signed(neg, Thousands(a, k - i))
  {
    ScaledBack(a, k - i, neg);
  }

  /** Printing and reading look the unit up in the same place. */
  lemma PlaceIs(dim: char)
    ensures Place(dim) == Offset(dim) || (Place(dim) < 0 && Offset(dim) == 0)
  {
    SecondsPlace();
  }

  lemma SecondsPlace()
    ensures IndexOf(TIME_PREFIX, 's') == -1 && IndexOf(TIME_PREFIX, 'S') == -1
  {
    assert 's' !in TIME_PREFIX && 'S' !in TIME_PREFIX;
  }
}
