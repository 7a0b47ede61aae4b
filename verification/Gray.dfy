/** Gray code and bit counting on vectors of logic values, the leftmost bit first. */
module Gray {
  import opened Waves

  predicate Low(c: nat) {
    c == AN_0 || c == AN_L
  }

  predicate High(c: nat) {
    c == AN_1 || c == AN_H
  }

  predicate Binary(c: nat) {
    Low(c) || High(c)
  }

  /** The bit written for ch when the bit before it was pch; both conversions share it. */
  function Xor(ch: nat, pch: nat): nat {
    if Low(ch) then if High(pch) then pch else ch
    else if High(ch) then if pch == AN_1 then AN_0 else if pch == AN_H then AN_L else ch
    else ch
  }

  /** How the rest of the vector is converted; a bit that is not binary is smeared over all behind it. */
  function Convert(v: seq<nat>, pch: nat, dead: bool, toGray: bool): (r: seq<nat>)
    ensures |r| == |v|
  {
    if v == [] then []
    else if dead then [pch] + Convert(v[1..], pch, true, toGray)
    else
      var w := Xor(v[0], pch);
      [w] + Convert(v[1..], if toGray then v[0] else w, !Binary(v[0]), toGray)
  }

  function BinGray(v: seq<nat>): seq<nat> {
    Convert(v, AN_0, false, true)
  }

  function GrayBin(v: seq<nat>): seq<nat> {
    Convert(v, AN_0, false, false)
  }

  lemma ConvertStep(v: seq<nat>, i: nat, pch: nat, dead: bool, toGray: bool)
    requires i < |v|
    ensures Convert(v[i..], pch, dead, toGray) ==
      if dead then [pch] + Convert(v[i + 1..], pch, true, toGray)
      else var w := Xor(v[i], pch); [w] + Convert(v[i + 1..], if toGray then v[i] else w, !Binary(v[i]), toGray)
  {
    assert v[i..][0] == v[i] && v[i..][1..] == v[i + 1..];
  }

  /** The first i bits have been converted, and the rest will be from pch on. */
  ghost predicate Converting(v: seq<nat>, a: seq<nat>, i: nat, pch: nat, dead: bool, toGray: bool) {
    i <= |a| == |v| && a[i..] == v[i..] && Convert(v, AN_0, false, toGray) == a[..i] + Convert(v[i..], pch, dead, toGray)
  }

  lemma ConvertingStep(v: seq<nat>, a: seq<nat>, i: nat, pch: nat, dead: bool, toGray: bool)
    requires Converting(v, a, i, pch, dead, toGray) && i < |v|
    ensures a[i] == v[i]
    ensures dead ==> Converting(v, a[i := pch], i + 1, pch, true, toGray)
    ensures !dead ==> var w := Xor(v[i], pch); Converting(v, a[i := w], i + 1, if toGray then v[i] else w, !Binary(v[i]), toGray)
  {
    ConvertStep(v, i, pch, dead, toGray);
    assert a[i] == a[i..][0] == v[i..][0];
    var x := if dead then pch else Xor(v[i], pch);
    var b := a[i := x];
    assert b[..i + 1] == a[..i] + [x];
    assert b[i + 1..] == a[i..][1..] == v[i..][1..] == v[i + 1..];
  }

  method SetBit(pnt: array<nat>, i: nat, c: nat)
    requires i < pnt.Length
    modifies pnt
    ensures pnt[..] == old(pnt[..])[i := c]
  {
    pnt[i] := c;
  }

  /** The switch on one bit. */
  method ApplyXor(pnt: array<nat>, i: nat, pch: nat)
    requires i < pnt.Length
    modifies pnt
    ensures pnt[..] == old(pnt[..])[i := Xor(old(pnt[i]), pch)]
  {
    var ch := pnt[i];
    if Low(ch) {
      if High(pch) {
        pnt[i] := pch;
      }
    } else if High(ch) {
      if pch == AN_1 {
        pnt[i] := AN_0;
      } else if pch == AN_H {
        pnt[i] := AN_L;
      }
    }
  }

  method ConvertBinGray(pnt: array<nat>)
    modifies pnt
    ensures pnt[..] == BinGray(old(pnt[..]))
  {
    var killState := false;
    var pch: nat := AN_0;
    ghost var v := pnt[..];
    for i := 0 to pnt.Length
      invariant Converting(v, pnt[..], i, pch, killState, true)
    {
      var ch := pnt[i];
      ConvertingStep(v, pnt[..], i, pch, killState, true);
      if !killState {
        ApplyXor(pnt, i, pch);
        if !Low(ch) && !High(ch) {
          killState := true;
        }
        pch := ch;
      } else {
        SetBit(pnt, i, pch);
      }
    }
  }

  method ConvertGrayBin(pnt: array<nat>)
    modifies pnt
    ensures pnt[..] == GrayBin(old(pnt[..]))
  {
    var killState := false;
    var pch: nat := AN_0;
    ghost var v := pnt[..];
    for i := 0 to pnt.Length
      invariant Converting(v, pnt[..], i, pch, killState, false)
    {
      var ch := pnt[i];
      ConvertingStep(v, pnt[..], i, pch, killState, false);
      if !killState {
        ApplyXor(pnt, i, pch);
        if !Low(ch) && !High(ch) {
          killState := true;
        }
        pch := pnt[i];
      } else {
        SetBit(pnt, i, pch);
      }
    }
  }

  /* ---------- the round trip ---------- */

  /** The same logic level, whatever the strength. */
  predicate SameLevel(a: nat, b: nat) {
    (Low(a) && Low(b)) || (High(a) && High(b))
  }

  /** w is v at the level of its binary bits, and the first other bit of v from there on. */
  ghost predicate Restored(v: seq<nat>, w: seq<nat>) {
    |w| == |v| && (v == [] ||
      if Binary(v[0]) then SameLevel(v[0], w[0]) && Restored(v[1..], w[1..])
      else forall i {:trigger w[i]} :: 0 <= i < |w| ==> w[i] == v[0])
  }

  lemma {:induction false} Smeared(v: seq<nat>, c: nat, toGray: bool)
    ensures forall i {:trigger Convert(v, c, true, toGray)[i]} :: 0 <= i < |v| ==> Convert(v, c, true, toGray)[i] == c
  {
    if v != [] {
      Smeared(v[1..], c, toGray);
    }
  }

  /** Back from Gray code: p is the previous bit, q the same bit as restored. */
  lemma {:induction false} BackFromGray(v: seq<nat>, p: nat, q: nat)
    requires SameLevel(p, q)
    ensures Restored(v, Convert(Convert(v, p, false, true), q, false, false))
    ensures (p == q && forall i :: 0 <= i < |v| ==> v[i] == AN_0 || v[i] == AN_1) && (p == AN_0 || p == AN_1)
      ==> Convert(Convert(v, p, false, true), q, false, false) == v
  {
    if v != [] {
      var g := Convert(v, p, false, true);
      var w := Xor(g[0], q);
      assert g[1..] == Convert(v[1..], v[0], !Binary(v[0]), true);
      if Binary(v[0]) {
        BackFromGray(v[1..], v[0], w);
      } else {
        Smeared(v[1..], v[0], true);
        Smeared(g[1..], w, false);
      }
    }
  }

  /** Back from binary: p is the previous decoded bit. */
  lemma {:induction false} BackFromBinary(v: seq<nat>, p: nat)
    requires Binary(p)
    ensures Restored(v, Convert(Convert(v, p, false, false), p, false, true))
    ensures (forall i :: 0 <= i < |v| ==> v[i] == AN_0 || v[i] == AN_1) && (p == AN_0 || p == AN_1)
      ==> Convert(Convert(v, p, false, false), p, false, true) == v
  {
    if v != [] {
      var w := Xor(v[0], p);
      var b := Convert(v, p, false, false);
      assert b[0] == w && b[1..] == Convert(v[1..], w, !Binary(v[0]), false);
      if Binary(v[0]) {
        BackFromBinary(v[1..], w);
      } else {
        Smeared(v[1..], w, false);
        Smeared(b[1..], w, true);
      }
    }
  }

  /** Converting to Gray code and back restores levels up to the first bit that is not binary; 0 and 1 exactly. */
  lemma GrayRoundTrip(v: seq<nat>)
    ensures Restored(v, GrayBin(BinGray(v)))
    ensures (forall i :: 0 <= i < |v| ==> v[i] == AN_0 || v[i] == AN_1) ==> GrayBin(BinGray(v)) == v
  {
    BackFromGray(v, AN_0, AN_0);
  }

  /** The other way round the same holds. */
  lemma BinaryRoundTrip(v: seq<nat>)
    ensures Restored(v, BinGray(GrayBin(v)))
    ensures (forall i :: 0 <= i < |v| ==> v[i] == AN_0 || v[i] == AN_1) ==> BinGray(GrayBin(v)) == v
  {
    BackFromBinary(v, AN_0);
  }

  /**
    What becomes of a bit x behind a bit q: the level tells whether they differ, and the code is x, or q
    for a low x behind a high q, or the low code of q's strength for two high ones.
   */
  ghost predicate Mixed(x: nat, q: nat, r: nat) {
    && (q == AN_0 || q == AN_L ==> r == x)
    && ((x == AN_0 || x == AN_L) && (q == AN_1 || q == AN_H) ==> r == q)
    && ((x == AN_1 || x == AN_H) && q == AN_1 ==> r == AN_0)
    && ((x == AN_1 || x == AN_H) && q == AN_H ==> r == AN_L)
  }

  ghost predicate AllBinary(v: seq<nat>) {
    forall k {:trigger v[k]} :: 0 <= k < |v| ==> v[k] == AN_0 || v[k] == AN_1 || v[k] == AN_H || v[k] == AN_L
  }

  /** Bit by bit: in Gray code a bit is mixed with the bit in front of it, back from it with the result in front of it. */
  lemma {:induction false} BitsMixed(v: seq<nat>, p: nat, toGray: bool, i: nat)
    requires AllBinary(v) && i < |v| && AllBinary([p])
    ensures var r := Convert(v, p, false, toGray); Mixed(v[i], if i == 0 then p else if toGray then v[i - 1] else r[i - 1], r[i])
  {
    assert AllBinary([p]) ==> [p][0] == AN_0 || [p][0] == AN_1 || [p][0] == AN_H || [p][0] == AN_L;
    if i > 0 {
      var q := if toGray then v[0] else Xor(v[0], p);
      assert AllBinary([q]);
      BitsMixed(v[1..], q, toGray, i - 1);
      assert Convert(v, p, false, toGray)[1..] == Convert(v[1..], q, false, toGray);
    }
  }

  /* ---------- numbers ---------- */

  function Pow2(n: nat): nat {
    if n == 0 then 1 else 2 * Pow2(n - 1)
  }

  function Bit(b: bool): nat {
    if b then AN_1 else AN_0
  }

  /** n in w binary digits. */
  function Bits(n: nat, w: nat): (v: seq<nat>)
    ensures |v| == w
  {
    if w == 0 then [] else Bits(n / 2, w - 1) + [Bit(n % 2 == 1)]
  }

  function ValueOf(v: seq<nat>): nat {
    if v == [] then 0 else 2 * ValueOf(v[..|v| - 1]) + if v[|v| - 1] == AN_1 then 1 else 0
  }

  lemma {:induction false} BitsValue(n: nat, w: nat)
    requires n < Pow2(w)
    ensures ValueOf(Bits(n, w)) == n
  {
    if w > 0 {
      BitsValue(n / 2, w - 1);
      assert Bits(n, w)[..w - 1] == Bits(n / 2, w - 1);
    }
  }

  lemma {:induction false} ConvertSnoc(v: seq<nat>, x: nat, pch: nat)
    requires (forall i :: 0 <= i < |v| ==> v[i] == AN_0 || v[i] == AN_1) && (pch == AN_0 || pch == AN_1)
    ensures Convert(v + [x], pch, false, true) == Convert(v, pch, false, true) + [Xor(x, if v == [] then pch else v[|v| - 1])]
  {
    if v == [] {
      assert v + [x] == [x] && [x][1..] == [];
    } else {
      assert (v + [x])[1..] == v[1..] + [x];
      ConvertSnoc(v[1..], x, v[0]);
    }
  }

  lemma {:induction false} BitsBinary(n: nat, w: nat)
    ensures forall i :: 0 <= i < w ==> Bits(n, w)[i] == AN_0 || Bits(n, w)[i] == AN_1
    ensures w > 0 ==> Bits(n, w)[w - 1] == Bit(n % 2 == 1)
  {
    if w > 0 {
      BitsBinary(n / 2, w - 1);
    }
  }

  /** The code of n is that of n / 2 with one more bit. */
  lemma GraySnoc(n: nat, w: nat)
    requires 0 < w
    ensures BinGray(Bits(n, w)) == BinGray(Bits(n / 2, w - 1)) + [Xor(Bit(n % 2 == 1), if w == 1 then AN_0 else Bit(n / 2 % 2 == 1))]
  {
    BitsBinary(n / 2, w - 1);
    ConvertSnoc(Bits(n / 2, w - 1), Bit(n % 2 == 1), AN_0);
  }

  /** The vectors differ in bit k only. */
  ghost predicate ApartAt(a: seq<nat>, b: seq<nat>, k: nat) {
    k < |a| == |b| && forall i :: 0 <= i < |a| ==> (a[i] != b[i] <==> i == k)
  }

  lemma ApartLast(v: seq<nat>, a: seq<nat>, b: seq<nat>)
    requires |a| == |b| == |v| + 1 && a[..|v|] == v == b[..|v|] && a[|v|] != b[|v|]
    ensures ApartAt(a, b, |v|)
  {
    assert forall i :: 0 <= i < |v| ==> a[i] == a[..|v|][i] && b[i] == b[..|v|][i];
  }

  lemma ApartBefore(v: seq<nat>, w: seq<nat>, a: seq<nat>, b: seq<nat>, k: nat)
    requires ApartAt(v, w, k) && |a| == |b| == |v| + 1 && a[..|v|] == v && b[..|v|] == w && a[|v|] == b[|v|]
    ensures ApartAt(a, b, k)
  {
    assert forall i :: 0 <= i < |v| ==> a[i] == a[..|v|][i] && b[i] == b[..|v|][i];
  }

  /** The Gray codes of neighbouring numbers differ in exactly one bit. */
  lemma {:induction false} OneBitApart(n: nat, w: nat) returns (k: nat)
    requires n + 1 < Pow2(w)
    ensures k < w && ApartAt(BinGray(Bits(n, w)), BinGray(Bits(n + 1, w)), k)
  {
    GraySnoc(n, w);
    GraySnoc(n + 1, w);
    if n % 2 == 0 {
      assert n / 2 == (n + 1) / 2;
      k := w - 1;
      ApartLast(BinGray(Bits(n / 2, w - 1)), BinGray(Bits(n, w)), BinGray(Bits(n + 1, w)));
    } else {
      assert (n + 1) / 2 == n / 2 + 1;
      k := OneBitApart(n / 2, w - 1);
      ApartBefore(BinGray(Bits(n / 2, w - 1)), BinGray(Bits((n + 1) / 2, w - 1)), BinGray(Bits(n, w)), BinGray(Bits(n + 1, w)), k);
    }
  }

  /* ---------- counting ---------- */

  function Ones(v: seq<nat>): nat {
    if v == [] then 0 else Ones(v[..|v| - 1]) + if High(v[|v| - 1]) then 1 else 0
  }

  /** They are the bits that are 1 or H. */
  lemma {:induction false} OnesAre(v: seq<nat>)
    ensures Ones(v) == |set i | 0 <= i < |v| && (v[i] == AN_1 || v[i] == AN_H)|
  {
    if v != [] {
      var u := v[..|v| - 1];
      OnesAre(u);
      var s, r := set i | 0 <= i < |v| && (v[i] == AN_1 || v[i] == AN_H), set i | 0 <= i < |u| && (u[i] == AN_1 || u[i] == AN_H);
      assert s == if v[|u|] == AN_1 || v[|u|] == AN_H then r + {|u|} else r;
    }
  }

  lemma {:induction false} OnesFit(v: seq<nat>)
    ensures Ones(v) <= |v| && Ones(v) < Pow2(|v|)
  {
    if v != [] {
      OnesFit(v[..|v| - 1]);
    }
  }

  method CountOnes(pnt: array<nat>) returns (pop: nat)
    ensures pop == Ones(pnt[..])
  {
    pop := 0;
    ghost var v := pnt[..];
    for i := 0 to pnt.Length
      invariant pop == Ones(v[..i])
    {
      assert v[..i + 1][..i] == v[..i];
      if High(pnt[i]) {
        pop := pop + 1;
      }
    }
    assert v[..|v|] == v;
  }

  /** Writes the low digits of pop from the right. */
  method WriteBits(pnt: array<nat>, n: nat)
    modifies pnt
    ensures pnt[..] == Bits(n, pnt.Length)
  {
    var pop := n;
    ghost var w := Bits(n, pnt.Length);
    var i := pnt.Length - 1;
    while i >= 0
      invariant -1 <= i < pnt.Length && 0 <= pop && w == Bits(pop, i + 1) + pnt[i + 1..]
    {
      pnt[i] := if pop % 2 == 1 then AN_1 else AN_0;
      assert pnt[i..] == [Bit(pop % 2 == 1)] + pnt[i + 1..];
      pop := pop / 2;
      i := i - 1;
    }
  }

  /** convert_popcnt: the vector becomes the number of its ones in binary, which always fits. */
  method ConvertPopcnt(pnt: array<nat>)
    modifies pnt
    ensures pnt[..] == Bits(Ones(old(pnt[..])), pnt.Length) && ValueOf(pnt[..]) == Ones(old(pnt[..]))
  {
    var pop := CountOnes(pnt);
    OnesFit(pnt[..]);
    BitsValue(pop, pnt.Length);
    WriteBits(pnt, pop);
  }
}
