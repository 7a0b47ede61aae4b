/** The byte format of packed facility names: back-pointer, 0, suffix; read backwards. */
module HierPackCodec {
  newtype byte = x: int | 0 <= x < 256

  datatype Option<+T> = None | Some(value: T)

  /* ---------- variable length integers ---------- */

  /** The low seven bits of v with the 0x80 flag. */
  function Group(v: nat): byte {
    (128 + v % 128) as byte
  }

  /** Most significant group first; all groups but the first carry the 0x80 flag. */
  function Enc(v: nat): (s: seq<byte>)
    ensures 1 <= |s|
  {
    if v / 128 == 0 then [v as byte] else Enc(v / 128) + [Group(v)]
  }

  /** Where the integer ending at e starts, and its value. */
  datatype Vli = Vli(start: nat, val: nat)

  function Dec(b: seq<byte>, e: int): (r: Option<Vli>)
    requires e < |b|
    ensures r.Some? ==> r.value.start <= e
    decreases e
  {
    if e < 0 then None
    else if b[e] < 128 then Some(Vli(e, b[e] as nat))
    else
      match Dec(b, e - 1)
      case None => None
      case Some(Vli(s, v)) => Some(Vli(s, 128 * v + b[e] as nat % 128))
  }

  lemma {:induction false} DecEnc(p: seq<byte>, v: nat, t: seq<byte>)
    ensures Dec(p + Enc(v) + t, |p| + |Enc(v)| - 1) == Some(Vli(|p|, v))
  {
    var b := p + Enc(v) + t;
    var e := |p| + |Enc(v)| - 1;
    if v / 128 != 0 {
      DecEnc(p, v / 128, [Group(v)] + t);
      assert b == p + Enc(v / 128) + ([Group(v)] + t);
    }
  }

  lemma {:induction false} DecPrefix(b: seq<byte>, t: seq<byte>, e: int)
    requires e < |b|
    ensures Dec(b + t, e) == Dec(b, e)
    decreases e
  {
    if e >= 0 {
      DecPrefix(b, t, e - 1);
    }
  }

  /** The number that seven-bit groups stand for, the most significant one first. */
  function Groups(s: seq<byte>): nat {
    if s == [] then 0 else 128 * Groups(s[..|s| - 1]) + s[|s| - 1] as nat % 128
  }

  /** An integer is written in as few seven-bit groups as it takes, the first one without the flag and the others with it. */
  lemma {:induction false} EncGroups(v: nat)
    ensures Groups(Enc(v)) == v && Enc(v)[0] < 128 && (|Enc(v)| > 1 ==> Enc(v)[0] != 0)
    ensures forall i :: 1 <= i < |Enc(v)| ==> Enc(v)[i] >= 128
  {
    var e := Enc(v);
    if v / 128 != 0 {
      EncGroups(v / 128);
      assert e[..|e| - 1] == Enc(v / 128);
    } else {
      assert e[..|e| - 1] == [];
    }
  }

  /* ---------- names ---------- */

  /** The last 0 at or before d, or -1. */
  function Zero(b: seq<byte>, d: int): (z: int)
    requires d < |b|
    ensures -1 <= z && (z <= d || z == -1)
    decreases d
  {
    if d < 0 then -1 else if b[d] == 0 then d else Zero(b, d - 1)
  }

  /** One record read backwards from d: its suffix starts after z; prev is where it points back to. */
  datatype Hop = Bad | First(z: nat) | Back(z: nat, prev: nat)

  function HopAt(b: seq<byte>, d: int): (r: Hop)
    requires d < |b|
    ensures !r.Bad? ==> r.z <= d
    ensures r.Back? ==> r.prev < d
  {
    var z := Zero(b, d);
    if z < 0 then Bad else
    match Dec(b, z - 1)
    case None => Bad
    case Some(Vli(s, v)) => if v == 0 then First(z) else if s < v then Bad else Back(z, s - v)
  }

  /** The name whose last byte is at d: the suffix there, after the names it points back to. */
  function Decode(b: seq<byte>, d: int): (r: Option<seq<byte>>)
    requires d < |b|
    decreases d
  {
    match HopAt(b, d)
    case Bad => None
    case First(z) => Some(b[z + 1..d + 1])
    case Back(z, prev) =>
      match Decode(b, prev)
      case None => None
      case Some(n) => Some(n + b[z + 1..d + 1])
  }

  lemma {:induction false} ZeroPrefix(b: seq<byte>, t: seq<byte>, d: int)
    requires d < |b|
    ensures Zero(b + t, d) == Zero(b, d)
    decreases d
  {
    if d >= 0 {
      ZeroPrefix(b, t, d - 1);
    }
  }

  lemma HopPrefix(b: seq<byte>, t: seq<byte>, d: int)
    requires d < |b|
    ensures HopAt(b + t, d) == HopAt(b, d)
  {
    ZeroPrefix(b, t, d);
    if Zero(b, d) >= 0 {
      DecPrefix(b, t, Zero(b, d) - 1);
    }
  }

  /** Appending bytes never changes what an earlier position decodes to. */
  lemma {:induction false} DecodePrefix(b: seq<byte>, t: seq<byte>, d: int)
    requires d < |b|
    ensures Decode(b + t, d) == Decode(b, d)
    decreases d
  {
    HopPrefix(b, t, d);
    var h, w := HopAt(b, d), b + t;
    if h.Back? {
      DecodePrefix(b, t, h.prev);
    }
    if !h.Bad? {
      SliceFront(b, t, h.z + 1, d + 1, w);
    }
    SameHop(b, d, w, h);
  }

  lemma SameHop(b: seq<byte>, d: int, w: seq<byte>, h: Hop)
    requires d < |b| <= |w| && h == HopAt(b, d) == HopAt(w, d)
    requires !h.Bad? ==> w[h.z + 1..d + 1] == b[h.z + 1..d + 1]
    requires h.Back? ==> Decode(w, h.prev) == Decode(b, h.prev)
    ensures Decode(w, d) == Decode(b, d)
  {
  }

  lemma SliceFront(b: seq<byte>, t: seq<byte>, i: int, j: int, w: seq<byte>)
    requires 0 <= i <= j <= |b| && w == b + t
    ensures w[i..j] == b[i..j]
  {
  }

  /** The record appended for a name: back == 0 stands for no back-pointer. */
  function Record(back: nat, suffix: seq<byte>): seq<byte> {
    Enc(back) + [0] + suffix
  }

  ghost predicate NoZero(s: seq<byte>) {
    forall i :: 0 <= i < |s| ==> s[i] != 0
  }

  lemma {:induction false} ZeroSuffix(p: seq<byte>, s: seq<byte>, t: seq<byte>, i: nat)
    requires NoZero(s) && i <= |s|
    ensures Zero(p + [0] + s + t, |p| + i) == |p|
    decreases i
  {
    if i > 0 {
      ZeroSuffix(p, s, t, i - 1);
      assert (p + [0] + s + t)[|p| + i] == s[i - 1];
    }
  }

  /** The 0 that a position of the appended record is read back from is the record's own. */
  lemma ZeroRecord(b: seq<byte>, back: nat, suffix: seq<byte>, i: nat, w: seq<byte>)
    requires NoZero(suffix) && i <= |suffix| && w == b + Record(back, suffix)
    ensures Zero(w, |b| + |Enc(back)| + i) == |b| + |Enc(back)|
  {
    var p := b + Enc(back);
    assert w == p + [0] + suffix + [];
    ZeroSuffix(p, suffix, [], i);
  }

  lemma DecRecord(b: seq<byte>, back: nat, suffix: seq<byte>, w: seq<byte>)
    requires w == b + Record(back, suffix)
    ensures Dec(w, |b| + |Enc(back)| - 1) == Some(Vli(|b|, back))
  {
    assert w == b + Enc(back) + ([0] + suffix);
    DecEnc(b, back, [0] + suffix);
  }

  lemma SliceRecord(b: seq<byte>, back: nat, suffix: seq<byte>, i: nat, w: seq<byte>, p: nat)
    requires i <= |suffix| && w == b + Record(back, suffix) && p == |b| + |Enc(back)|
    ensures |w| == p + 1 + |suffix| && w[p + 1..p + i + 1] == suffix[..i]
  {
    var e := Enc(back);
    assert w == (b + e + [0]) + suffix;
  }

  lemma IsHop(w: seq<byte>, d: int, z: nat, start: nat, v: nat)
    requires d < |w| && Zero(w, d) == z && z < |w| && Dec(w, z - 1) == Some(Vli(start, v))
    ensures HopAt(w, d) == if v == 0 then First(z) else if start < v then Bad else Back(z, start - v)
  {
  }

  /**
    A record for key that shares its first mat bytes with the name at position at (none when at
    is negative): every position of the record decodes to the part of key up to there.
   */
  lemma DecodeRecord(b: seq<byte>, at: int, key: seq<byte>, mat: nat, i: nat, back: nat, w: seq<byte>)
    requires mat <= i <= |key| && NoZero(key)
    requires if at < 0 then mat == 0 && back == 0 else at < |b| && back == |b| - at && Decode(b, at) == Some(key[..mat])
    requires w == b + Record(back, key[mat..])
    ensures |w| == |b| + |Enc(back)| + 1 + |key| - mat
    ensures Decode(w, |b| + |Enc(back)| + (i - mat)) == Some(key[..i])
  {
    var suffix, p := key[mat..], |b| + |Enc(back)|;
    RecordFacts(b, at, back, suffix, i - mat, w, p);
    DecodeTail(w, p, p + (i - mat), |b|, back, at, key, mat, i);
  }

  /** What the decoder meets on its way back from byte i of a suffix. */
  lemma RecordFacts(b: seq<byte>, at: int, back: nat, suffix: seq<byte>, i: nat, w: seq<byte>, p: nat)
    requires NoZero(suffix) && i <= |suffix| && w == b + Record(back, suffix) && p == |b| + |Enc(back)|
    ensures |w| == p + 1 + |suffix| && Zero(w, p + i) == p && Dec(w, p - 1) == Some(Vli(|b|, back))
    ensures w[p + 1..p + i + 1] == suffix[..i] && (0 <= at < |b| ==> Decode(w, at) == Decode(b, at))
  {
    ZeroRecord(b, back, suffix, i, w);
    DecRecord(b, back, suffix, w);
    SliceRecord(b, back, suffix, i, w, p);
    if 0 <= at < |b| {
      DecodePrefix(b, Record(back, suffix), at);
    }
  }

  /** The suffix read at d, behind the name it points back to. */
  lemma DecodeTail(w: seq<byte>, p: nat, d: nat, start: nat, back: nat, at: int, key: seq<byte>, mat: nat, i: nat)
    requires mat <= i <= |key| && d == p + (i - mat) < |w| && Zero(w, d) == p && Dec(w, p - 1) == Some(Vli(start, back))
    requires if at < 0 then mat == 0 && back == 0 else at < |w| && at < start && back == start - at && Decode(w, at) == Some(key[..mat])
    requires w[p + 1..d + 1] == key[mat..][..i - mat]
    ensures Decode(w, d) == Some(key[..i])
  {
    var pre, tail := key[..mat], key[mat..][..i - mat];
    IsHop(w, d, p, start, back);
    KeyParts(key, mat, i, pre, tail);
    DecodeHop(w, d, pre, tail);
  }

  lemma KeyParts(key: seq<byte>, mat: nat, i: nat, pre: seq<byte>, tail: seq<byte>)
    requires mat <= i <= |key| && pre == key[..mat] && tail == key[mat..][..i - mat]
    ensures pre + tail == key[..i]
  {
  }

  lemma DecodeHop(w: seq<byte>, d: nat, pre: seq<byte>, tail: seq<byte>)
    requires d < |w| && !HopAt(w, d).Bad? && w[HopAt(w, d).z + 1..d + 1] == tail
    requires if HopAt(w, d).First? then pre == [] else Decode(w, HopAt(w, d).prev) == Some(pre)
    ensures Decode(w, d) == Some(pre + tail)
  {
    if pre == [] { assert pre + tail == tail; }
  }
}
