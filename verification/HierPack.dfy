/** The append-only compressor of facility names and its decoder. */
module HierPack {
  import opened HierPackCodec

  const VLI_SIZE := 10
  /** A handle is a position shifted left by one in a 64-bit pointer. */
  const POSITION_LIMIT := 0x8000_0000_0000_0000

  /* ---------- what the two scratch arrays and the handles mean ---------- */

  ghost predicate PrefixAt(b: seq<byte>, offs: seq<nat>, cur: seq<byte>, i: nat) {
    i < |cur| && i < |offs| && offs[i] < |b| && Decode(b, offs[i]) == Some(cur[..i + 1])
  }

  /** offs[i] is a position that decodes to the first i + 1 bytes of the current name. */
  ghost predicate Prefixes(b: seq<byte>, offs: seq<nat>, cur: seq<byte>) {
    forall i: nat {:trigger PrefixAt(b, offs, cur, i)} :: i < |cur| ==> PrefixAt(b, offs, cur, i)
  }

  /** The places from mat up to n follow one another from base on. */
  ghost predicate Placed(offs: seq<nat>, mat: nat, n: nat, base: int) {
    n <= |offs| && forall i {:trigger offs[i]} :: mat <= i < n ==> offs[i] == base + (i - mat)
  }

  ghost predicate IssuedAt(b: seq<byte>, names: seq<seq<byte>>, handles: seq<nat>, j: nat) {
    && j < |names| && j < |handles|
    && handles[j] % 2 == 1 && handles[j] / 2 < |b| && Decode(b, handles[j] / 2) == Some(names[j])
  }

  /** Every handle given out decodes to its name. */
  ghost predicate Issued(b: seq<byte>, names: seq<seq<byte>>, handles: seq<nat>) {
    |handles| == |names| && forall j: nat {:trigger IssuedAt(b, names, handles, j)} :: j < |names| ==> IssuedAt(b, names, handles, j)
  }

  function Total(names: seq<seq<byte>>): nat {
    if names == [] then 0 else Total(names[..|names| - 1]) + |names[|names| - 1]| + 1
  }

  /** key shares its first mat bytes with the current name and points back to them. */
  ghost predicate Shares(b: seq<byte>, offs: seq<nat>, cur: seq<byte>, key: seq<byte>, mat: nat, back: nat) {
    && mat <= |cur| && mat <= |key| && mat <= |offs| && key[..mat] == cur[..mat]
    && NoZero(key)
    && (if mat == 0 then back == 0 else offs[mat - 1] < |b| && back == |b| - offs[mat - 1])
  }

  /** m is the length of the longest common beginning of key and the last name that is not all of key. */
  ghost predicate LongestShared(key: seq<byte>, cur: seq<byte>, m: nat) {
    && m <= |key| && m <= |cur| && key[..m] == cur[..m] && (m < |key| || m == 0)
    && forall n :: m < n < |key| && n <= |cur| ==> key[..n] != cur[..n]
  }

  /** How many of m shared bytes are not written again: all, if pointing back by d is shorter, or none. */
  ghost function Saved(m: nat, d: nat): (c: nat)
    ensures c <= m
  {
    if 0 < m && |Enc(d)| < m then m else 0
  }

  /** What is written for key: a back-pointer by d and the bytes behind the shared ones, or 0 and all of key. */
  ghost function Packing(key: seq<byte>, m: nat, d: nat): seq<byte>
    requires m <= |key|
  {
    if Saved(m, d) > 0 then Enc(d) + [0] + key[m..] else Enc(0) + [0] + key
  }

  /**
    What packing key makes of the bytes b and the positions offs: m bytes are shared, the last one at
    position at; bytes that are written again have new positions.
   */
  ghost predicate Recorded(b: seq<byte>, offs: seq<nat>, key: seq<byte>, m: nat, at: int, w: seq<byte>, offs': seq<nat>) {
    && m <= |key| && m <= |offs| && |key| < |offs'| && at <= |b| && offs'[|key|] == 0
    && w == b + Packing(key, m, |b| - at)
    && var c := Saved(m, |b| - at);
    offs'[..c] == offs[..c] && Placed(offs', c, |key|, |w| - |key| + c)
  }

  /** Of m shared bytes mat are kept, with the back-pointer to them; none unless that saves bytes. */
  ghost predicate Chosen(b: seq<byte>, m: nat, at: int, mat: nat, back: nat) {
    && at <= |b| && (if mat == 0 then back == 0 else mat == m && back == |b| - at && |Enc(back)| < mat)
    && (m > 0 && |Enc(|b| - at)| < m ==> mat == m)
  }

  lemma RecordedIs(b: seq<byte>, offs: seq<nat>, key: seq<byte>, m: nat, at: int, mat: nat, back: nat, w: seq<byte>, offs': seq<nat>)
    requires m <= |key| && m <= |offs| && |key| < |offs'| && offs'[|key|] == 0 && Chosen(b, m, at, mat, back)
    requires w == b + Record(back, key[mat..]) && offs'[..mat] == offs[..mat]
    requires Placed(offs', mat, |key|, |b| + |Enc(back)| + 1)
    ensures Recorded(b, offs, key, m, at, w, offs')
  {
    assert key[0..] == key;
  }

  /** Positions of other bytes do not matter. */
  lemma RecordedFrom(b: seq<byte>, offs0: seq<nat>, offs: seq<nat>, n: nat, key: seq<byte>, m: nat, at: int, w: seq<byte>, offs': seq<nat>)
    requires Recorded(b, offs, key, m, at, w, offs') && m <= n <= |offs| && n <= |offs0| && offs[..n] == offs0[..n]
    ensures Recorded(b, offs0, key, m, at, w, offs')
  {
    var c := Saved(m, |b| - at);
    assert offs[..c] == offs[..n][..c] == offs0[..n][..c] == offs0[..c];
  }

  lemma RecordDecodes(b: seq<byte>, offs: seq<nat>, cur: seq<byte>, key: seq<byte>, mat: nat, back: nat, i: nat, w: seq<byte>)
    requires Prefixes(b, offs, cur) && Shares(b, offs, cur, key, mat, back) && mat <= i <= |key|
    requires w == b + Record(back, key[mat..])
    ensures |w| == |b| + |Enc(back)| + 1 + |key| - mat
    ensures Decode(w, |b| + |Enc(back)| + (i - mat)) == Some(key[..i])
  {
    var at := SharedAt(b, offs, cur, key, mat, back);
    DecodeRecord(b, at, key, mat, i, back, w);
  }

  /** Where the shared prefix is; -1 when there is none. */
  lemma SharedAt(b: seq<byte>, offs: seq<nat>, cur: seq<byte>, key: seq<byte>, mat: nat, back: nat) returns (at: int)
    requires Prefixes(b, offs, cur) && Shares(b, offs, cur, key, mat, back)
    ensures if at < 0 then mat == 0 && back == 0 else at < |b| && back == |b| - at && Decode(b, at) == Some(key[..mat])
  {
    at := -1;
    if mat > 0 {
      assert PrefixAt(b, offs, cur, mat - 1);
      at := offs[mat - 1];
    }
  }

  lemma PrefixesAfter(b: seq<byte>, offs: seq<nat>, cur: seq<byte>, key: seq<byte>, mat: nat, back: nat, offs': seq<nat>, w: seq<byte>)
    requires Prefixes(b, offs, cur) && Shares(b, offs, cur, key, mat, back)
    requires |key| <= |offs'| && offs'[..mat] == offs[..mat]
    requires Placed(offs', mat, |key|, |b| + |Enc(back)| + 1)
    requires w == b + Record(back, key[mat..])
    ensures Prefixes(w, offs', key)
  {
    forall i: nat {:trigger PrefixAt(w, offs', key, i)} | i < |key| ensures PrefixAt(w, offs', key, i) {
      if i < mat {
        assert PrefixAt(b, offs, cur, i) && offs'[..mat][i] == offs[..mat][i];
        assert key[..mat][..i + 1] == key[..i + 1] == cur[..mat][..i + 1] == cur[..i + 1];
        DecodePrefix(b, Record(back, key[mat..]), offs[i]);
      } else {
        RecordDecodes(b, offs, cur, key, mat, back, i + 1, w);
      }
    }
  }

  lemma PrefixesFrame(b: seq<byte>, offs: seq<nat>, cur: seq<byte>, offs': seq<nat>)
    requires Prefixes(b, offs, cur) && |cur| <= |offs| && |cur| <= |offs'| && offs'[..|cur|] == offs[..|cur|]
    ensures Prefixes(b, offs', cur)
  {
    forall i: nat {:trigger PrefixAt(b, offs', cur, i)} | i < |cur| ensures PrefixAt(b, offs', cur, i) {
      assert PrefixAt(b, offs, cur, i) && offs'[..|cur|][i] == offs[..|cur|][i];
    }
  }

  lemma IssuedAfter(b: seq<byte>, t: seq<byte>, names: seq<seq<byte>>, handles: seq<nat>, key: seq<byte>, h: nat)
    requires Issued(b, names, handles)
    requires h % 2 == 1 && h / 2 < |b + t| && Decode(b + t, h / 2) == Some(key)
    ensures Issued(b + t, names + [key], handles + [h])
  {
    forall j: nat {:trigger IssuedAt(b + t, names + [key], handles + [h], j)} | j < |names| + 1
      ensures IssuedAt(b + t, names + [key], handles + [h], j)
    {
      if j < |names| {
        assert IssuedAt(b, names, handles, j);
        DecodePrefix(b, t, handles[j] / 2);
      }
    }
  }

  lemma SameFront(buf: seq<byte>, cur: seq<byte>, key: seq<byte>, m: nat, mat: nat)
    requires m <= |cur| <= |buf| && m <= |key| && key[..m] == cur[..m] && mat <= m && buf[..|cur|] == cur
    ensures buf[..mat] == key[..mat]
  {
    assert key[..mat] == key[..m][..mat] == cur[..m][..mat] == cur[..mat];
    assert buf[..mat] == buf[..|cur|][..mat] == cur[..mat];
  }

  lemma SharesChosen(b: seq<byte>, offs: seq<nat>, cur: seq<byte>, key: seq<byte>, m: nat, at: int, mat: nat, back: nat)
    requires NoZero(key) && m <= |cur| && m <= |key| && m <= |offs| && key[..m] == cur[..m] && Chosen(b, m, at, mat, back)
    requires m > 0 ==> 0 <= at < |b| && at == offs[m - 1]
    ensures Shares(b, offs, cur, key, mat, back) && |Enc(back)| + |key| - mat <= |key| + 1
  {
    assert key[..mat] == key[..m][..mat] == cur[..m][..mat] == cur[..mat];
    if mat == 0 {
      assert |Enc(0)| == 1;
    }
  }

  /** What the written bytes, positions and handles mean, and how many bytes there can be. */
  ghost predicate Meaning(b: seq<byte>, offs: seq<nat>, cur: seq<byte>, names: seq<seq<byte>>, handles: seq<nat>) {
    Prefixes(b, offs, cur) && Issued(b, names, handles) && |b| <= Total(names) + |names|
  }

  lemma Packed(b: seq<byte>, offs: seq<nat>, cur: seq<byte>, key: seq<byte>, mat: nat, back: nat, offs': seq<nat>, w: seq<byte>,
               names: seq<seq<byte>>, handles: seq<nat>, h: nat)
    requires Meaning(b, offs, cur, names, handles) && Shares(b, offs, cur, key, mat, back)
    requires |Enc(back)| + |key| - mat <= |key| + 1
    requires |key| <= |offs'| && offs'[..mat] == offs[..mat]
    requires Placed(offs', mat, |key|, |b| + |Enc(back)| + 1)
    requires w == b + Record(back, key[mat..]) && h == (|w| - 1) * 2 + 1
    ensures Meaning(w, offs', key, names + [key], handles + [h])
    ensures Total(names + [key]) == Total(names) + |key| + 1
  {
    PrefixesAfter(b, offs, cur, key, mat, back, offs', w);
    RecordDecodes(b, offs, cur, key, mat, back, |key|, w);
    assert key[..|key|] == key;
    IssuedAfter(b, Record(back, key[mat..]), names, handles, key, h);
    assert (names + [key])[..|names|] == names;
  }

  function Pow128(n: nat): nat {
    if n == 0 then 1 else 128 * Pow128(n - 1)
  }

  /** enc_var: the bytes of v right-justified in buf, and how many they are. */
  method EncVar(v0: nat, buf: array<byte>) returns (plen: nat)
    requires buf.Length == VLI_SIZE && v0 < 2 * POSITION_LIMIT
    modifies buf
    ensures plen <= VLI_SIZE && buf[VLI_SIZE - plen..] == Enc(v0)
  {
    var v: nat, pnt: nat := v0, VLI_SIZE;
    assert Pow128(9) == 0x8000_0000_0000_0000 by { assert Pow128(3) == 0x20_0000; assert Pow128(6) == 0x20_0000 * 0x20_0000; }
    assert v < Pow128(pnt);
    while v / 128 != 0
      invariant 1 <= pnt <= VLI_SIZE && v < Pow128(pnt)
      invariant Enc(v) + buf[pnt..] == Enc(v0)
      decreases v
    {
      ghost var rest := buf[pnt..];
      pnt := pnt - 1;
      buf[pnt] := Group(v);
      assert buf[pnt..] == [Group(v)] + rest;
      v := v / 128;
    }
    ghost var rest := buf[pnt..];
    pnt := pnt - 1;
    buf[pnt] := v as byte;
    assert buf[pnt..] == [v as byte] + rest;
    plen := VLI_SIZE - pnt;
  }

  /** What hier_decompress_flagged hands back: the argument itself, or an unpacked name. */
  datatype Depacked = Plain(n: nat) | Unpacked(name: seq<byte>)

  class Packer {
    var fmemBuf: array<byte>
    var fmemOffs: nat
    var hpBuf: array<byte>
    var hpOffs: array<nat>
    var hpPrev: nat
    var uncompressedSiz: nat
    const doHierCompress: bool
    ghost var bytes: seq<byte>          // everything written so far
    ghost var cur: seq<byte>            // the last name, as hpBuf holds it
    ghost var names: seq<seq<byte>>     // every name packed so far, and its handle
    ghost var handles: seq<nat>

    /** The output buffer; room for the next byte is made by out_c. */
    ghost predicate Buffered()
      reads this, fmemBuf
    {
      && fmemOffs <= fmemBuf.Length && 1 <= fmemBuf.Length
      && bytes == fmemBuf[..fmemOffs]
    }

    /** The scratch arrays hold the last name, closed by a 0, and the positions of its bytes. */
    ghost predicate Scratch()
      reads this, hpBuf, hpOffs
    {
      && hpBuf.Length == hpOffs.Length && |cur| < hpBuf.Length
      && hpBuf[..|cur|] == cur && hpBuf[|cur|] == 0 && NoZero(cur)
    }

    ghost predicate Valid()
      reads this, fmemBuf, hpBuf, hpOffs
    {
      && Buffered() && Scratch() && fmemBuf != hpBuf
      && hpPrev == |bytes|
      && Meaning(bytes, hpOffs[..], cur, names, handles)
      && uncompressedSiz == Total(names)
    }

    constructor (enabled: bool)
      ensures Valid() && names == [] && doHierCompress == enabled
      ensures fresh(fmemBuf) && fresh(hpBuf) && fresh(hpOffs)
    {
      doHierCompress := enabled;
      fmemBuf, fmemOffs := new byte[1024 * 1024], 0;
      hpBuf, hpOffs := new byte[1025](_ => 0), new nat[1025](_ => 0);
      hpPrev, uncompressedSiz := 0, 0;
      bytes, cur, names, handles := [], [], [], [];
    }

    method OutC(ch: byte)
      requires Buffered()
      modifies this`fmemBuf, this`fmemOffs, this`bytes, fmemBuf
      ensures Buffered() && bytes == old(bytes) + [ch]
      ensures fmemBuf == old(fmemBuf) || fresh(fmemBuf)
    {
      if fmemOffs + 1 >= fmemBuf.Length {
        var b := new byte[2 * fmemBuf.Length];
        forall i | 0 <= i < fmemOffs {
          b[i] := fmemBuf[i];
        }
        fmemBuf := b;
        assert bytes == fmemBuf[..fmemOffs];
      }
      fmemBuf[fmemOffs] := ch;
      fmemOffs := fmemOffs + 1;
      bytes := bytes + [ch];
    }

    method OutWrite(s: array<byte>, from: nat)
      requires Buffered() && from <= s.Length && s != fmemBuf
      modifies this`fmemBuf, this`fmemOffs, this`bytes, fmemBuf
      ensures Buffered() && bytes == old(bytes) + s[from..]
      ensures fmemBuf == old(fmemBuf) || fresh(fmemBuf)
    {
      var i := from;
      while i < s.Length
        invariant from <= i <= s.Length && Buffered() && bytes == old(bytes) + s[from..i]
        invariant (fmemBuf == old(fmemBuf) || fresh(fmemBuf)) && s != fmemBuf
        invariant s[..] == old(s[..])
      {
        OutC(s[i]);
        i := i + 1;
      }
    }

    /**
      The scratch arrays have room for a name of n bytes and its final 0, which comes into the last slot,
      one that the program does not have, just when the name is at least as long as the program's arrays were.
     */
    method Reserve(n: nat)
      requires Scratch()
      modifies this`hpBuf, this`hpOffs
      ensures Scratch() && n < hpBuf.Length && hpOffs[..|cur|] == old(hpOffs[..|cur|])
      ensures n == hpBuf.Length - 1 <==> old(hpBuf.Length) - 1 <= n
      ensures (hpBuf == old(hpBuf) || fresh(hpBuf)) && (hpOffs == old(hpOffs) || fresh(hpOffs))
    {
      if n > hpBuf.Length - 1 {
        var b, o := new byte[n + 1], new nat[n + 1];
        forall i | 0 <= i < hpBuf.Length {
          b[i] := hpBuf[i];
        }
        forall i | 0 <= i < hpOffs.Length {
          o[i] := hpOffs[i];
        }
        assert b[..|cur|] == hpBuf[..|cur|] && o[..|cur|] == hpOffs[..|cur|];
        hpBuf, hpOffs := b, o;
      }
    }

    /** How many bytes of key to take from the last name; one byte is always written anew. */
    method MatchLength(key: seq<byte>) returns (mat: nat)
      requires Scratch() && NoZero(key) && |key| < hpBuf.Length
      ensures mat <= |cur| && mat <= |key| && key[..mat] == cur[..mat]
      ensures LongestShared(key, cur, mat)
    {
      mat := 0;
      var i := 0;
      while i <= |key|
        invariant 0 <= i <= |key| && i <= |cur| && key[..i] == cur[..i]
        invariant mat == if i == 0 then 0 else i - 1
      {
        if i == |key| {
          break;
        }
        mat := i;
        assert i < |cur| ==> hpBuf[i] == hpBuf[..|cur|][i] == cur[i];
        if key[i] != hpBuf[i] {
          break;
        }
        assert key[..i + 1] == key[..i] + [key[i]] && cur[..i + 1] == cur[..i] + [cur[i]];
        i := i + 1;
      }
      assert key[..mat] == key[..i][..mat] && cur[..mat] == cur[..i][..mat];
      forall n | mat < n < |key| && n <= |cur| ensures key[..n] != cur[..n] {
        assert key[..n][mat] == key[mat] && cur[..n][mat] == cur[mat];
      }
    }

    /** The back-pointer encoded in vli, or 0 when it would not be shorter than what it replaces. */
    method EncodeBack(mat0: nat, vli: array<byte>, ghost at: int) returns (mat: nat, back: nat, plen: nat)
      requires hpPrev == |bytes| < POSITION_LIMIT && vli.Length == VLI_SIZE
      requires mat0 <= hpOffs.Length && at <= |bytes| && (mat0 > 0 ==> at == hpOffs[mat0 - 1])
      modifies vli
      ensures plen <= VLI_SIZE && vli[VLI_SIZE - plen..] == Enc(back)
      ensures Chosen(bytes, mat0, at, mat, back)
    {
      mat, back := mat0, 0;
      if mat == 0 {
        plen := EncVar(0, vli);
      } else {
        back := hpPrev - hpOffs[mat - 1];
        plen := EncVar(back, vli);
        if mat <= plen {
          mat, back := 0, 0;
          plen := EncVar(0, vli);
        }
      }
    }

    /** The back-pointer and the 0 byte of a record. */
    method WriteHead(vli: array<byte>, plen: nat, ghost back: nat)
      requires Buffered() && hpPrev == |bytes|
      requires plen <= VLI_SIZE == vli.Length && vli[VLI_SIZE - plen..] == Enc(back) && vli != fmemBuf
      modifies this`fmemBuf, this`fmemOffs, this`bytes, this`hpPrev, fmemBuf
      ensures Buffered() && (fmemBuf == old(fmemBuf) || fresh(fmemBuf))
      ensures bytes == old(bytes) + Enc(back) + [0] && hpPrev == |bytes|
    {
      hpPrev := hpPrev + plen;
      OutWrite(vli, VLI_SIZE - plen);
      OutC(0);
      hpPrev := hpPrev + 1;
    }

    /** Byte i of a suffix that begins at base. */
    method WriteByte(key: seq<byte>, mat: nat, i: nat, ghost base: nat)
      requires Buffered() && hpPrev == |bytes| == base + (i - mat) && mat <= i < |key| < hpBuf.Length && hpBuf.Length == hpOffs.Length
      requires fmemBuf != hpBuf && hpBuf[..i] == key[..i] && Placed(hpOffs[..], mat, i, base)
      modifies this`fmemBuf, this`fmemOffs, this`bytes, this`hpPrev, fmemBuf, hpBuf, hpOffs
      ensures Buffered() && (fmemBuf == old(fmemBuf) || fresh(fmemBuf)) && hpPrev == |bytes|
      ensures bytes == old(bytes) + [key[i]] && hpBuf[..i + 1] == key[..i + 1]
      ensures hpOffs[..i] == old(hpOffs[..i]) && Placed(hpOffs[..], mat, i + 1, base)
    {
      OutC(key[i]);
      hpBuf[i] := key[i];
      hpOffs[i] := hpPrev;
      hpPrev := hpPrev + 1;
      assert hpBuf[..i + 1] == hpBuf[..i] + [key[i]] && key[..i + 1] == key[..i] + [key[i]];
    }

    /** The suffix of a record; the scratch arrays follow. */
    method WriteSuffix(key: seq<byte>, mat: nat)
      requires Buffered() && hpPrev == |bytes| && mat <= |key| < hpBuf.Length && hpBuf.Length == hpOffs.Length
      requires fmemBuf != hpBuf && hpBuf[..mat] == key[..mat]
      modifies this`fmemBuf, this`fmemOffs, this`bytes, this`hpPrev, fmemBuf, hpBuf, hpOffs
      ensures Buffered() && (fmemBuf == old(fmemBuf) || fresh(fmemBuf)) && hpPrev == |bytes|
      ensures bytes == old(bytes) + key[mat..]
      ensures hpBuf[..|key|] == key && hpBuf[|key|] == 0 && hpOffs[|key|] == 0
      ensures hpOffs[..mat] == old(hpOffs[..mat])
      ensures Placed(hpOffs[..], mat, |key|, |old(bytes)|)
    {
      var i := mat;
      assert key[mat..mat] == [];
      while i < |key|
        invariant mat <= i <= |key| && Buffered() && (fmemBuf == old(fmemBuf) || fresh(fmemBuf)) && fmemBuf != hpBuf
        invariant bytes == old(bytes) + key[mat..i] && hpPrev == |bytes|
        invariant hpBuf[..i] == key[..i] && hpOffs[..mat] == old(hpOffs[..mat]) && Placed(hpOffs[..], mat, i, |old(bytes)|)
      {
        WriteByte(key, mat, i, |old(bytes)|);
        assert key[mat..i + 1] == key[mat..i] + [key[i]];
        i := i + 1;
      }
      hpBuf[i] := 0;
      hpOffs[i] := 0;
    }

    /** Room in the scratch arrays, and what key shares with the last name. */
    method Prepare(key: seq<byte>) returns (mat: nat, ghost at: int)
      requires Valid() && NoZero(key)
      modifies this`hpBuf, this`hpOffs
      ensures Valid() && |key| < hpBuf.Length
      ensures (hpBuf == old(hpBuf) || fresh(hpBuf)) && (hpOffs == old(hpOffs) || fresh(hpOffs))
      ensures LongestShared(key, cur, mat) && StandsAt(key, mat, at) && hpOffs[..|cur|] == old(hpOffs[..|cur|])
      ensures mat > 0 ==> at == old(hpOffs[mat - 1])
    {
      ghost var offs0 := hpOffs[..];
      Reserve(|key|);
      assert offs0[..|cur|] == hpOffs[..][..|cur|];
      PrefixesFrame(bytes, offs0, cur, hpOffs[..]);
      mat := MatchLength(key);
      at := |bytes|;
      if mat > 0 {
        assert PrefixAt(bytes, offs0, cur, mat - 1) && hpOffs[..][..|cur|][mat - 1] == offs0[..|cur|][mat - 1];
        at := offs0[mat - 1];
      }
    }

    /** The m bytes that key shares end at position at; where there are none, at is the end of all bytes. */
    ghost predicate StandsAt(key: seq<byte>, m: nat, at: int)
      reads this, hpOffs
    {
      && m <= |key| && m <= hpOffs.Length
      && if m == 0 then at == |bytes| else 0 <= at < |bytes| && at == hpOffs[m - 1] && Decode(bytes, at) == Some(key[..m])
    }

    lemma Written(b0: seq<byte>, back: nat, rest: seq<byte>, w: seq<byte>)
      requires w == (b0 + Enc(back) + [0]) + rest
      ensures w == b0 + Record(back, rest)
    {
    }

    /** Writes the record of key and brings the scratch arrays up to date. */
    method WriteRecord(key: seq<byte>, mat0: nat, ghost at: int) returns (ghost mat: nat, ghost back: nat)
      requires Buffered() && Scratch() && fmemBuf != hpBuf && hpPrev == |bytes| < POSITION_LIMIT && NoZero(key) && |key| < hpBuf.Length
      requires mat0 <= |cur| && mat0 <= |key| && key[..mat0] == cur[..mat0] && StandsAt(key, mat0, at)
      modifies this`fmemBuf, this`fmemOffs, this`bytes, this`hpPrev, this`cur, fmemBuf, hpBuf, hpOffs
      ensures Buffered() && Scratch() && (fmemBuf == old(fmemBuf) || fresh(fmemBuf)) && hpPrev == |bytes| && cur == key
      ensures Chosen(old(bytes), mat0, at, mat, back)
      ensures mat <= |key| && bytes == old(bytes) + Record(back, key[mat..])
      ensures hpOffs[..mat] == old(hpOffs[..mat]) && hpOffs[|key|] == 0
      ensures Placed(hpOffs[..], mat, |key|, |old(bytes)| + |Enc(back)| + 1)
    {
      var vli := new byte[VLI_SIZE];
      var m, b, plen := EncodeBack(mat0, vli, at);
      mat, back := m, b;
      SameFront(hpBuf[..], cur, key, mat0, m);
      ghost var b0 := bytes;
      WriteHead(vli, plen, back);
      WriteSuffix(key, m);
      Written(b0, back, key[mat..], bytes);
      cur := key;
    }

    ghost function Arrays(): set<object>
      reads this
    {
      {fmemBuf, hpBuf, hpOffs}
    }

    /** compress_facility once the shared prefix is known. */
    method AddRecord(key: seq<byte>, mat0: nat, ghost at: int) returns (handle: nat)
      requires Valid() && NoZero(key) && |bytes| < POSITION_LIMIT && |key| < hpBuf.Length
      requires mat0 <= |cur| && mat0 <= |key| && key[..mat0] == cur[..mat0] && StandsAt(key, mat0, at)
      modifies this, fmemBuf, hpBuf, hpOffs
      ensures Valid() && names == old(names) + [key] && handles == old(handles) + [handle] && cur == key
      ensures handle == (|bytes| - 1) * 2 + 1
      ensures Recorded(old(bytes), old(hpOffs[..]), key, mat0, at, bytes, hpOffs[..])
      ensures fmemBuf == old(fmemBuf) || fresh(fmemBuf)
      ensures hpBuf == old(hpBuf) && hpOffs == old(hpOffs)
    {
      handle := PackRecord(key, mat0, at);
      names, handles := names + [key], handles + [handle];
    }

    /** The same before the name enters the books. */
    method PackRecord(key: seq<byte>, mat0: nat, ghost at: int) returns (handle: nat)
      requires Valid() && NoZero(key) && |bytes| < POSITION_LIMIT && |key| < hpBuf.Length
      requires mat0 <= |cur| && mat0 <= |key| && key[..mat0] == cur[..mat0] && StandsAt(key, mat0, at)
      modifies this`uncompressedSiz, this`fmemBuf, this`fmemOffs, this`bytes, this`hpPrev, this`cur, fmemBuf, hpBuf, hpOffs
      ensures Buffered() && Scratch() && fmemBuf != hpBuf && hpPrev == |bytes| && (fmemBuf == old(fmemBuf) || fresh(fmemBuf))
      ensures Meaning(bytes, hpOffs[..], cur, names + [key], handles + [handle]) && uncompressedSiz == Total(names + [key])
      ensures cur == key && handle == (|bytes| - 1) * 2 + 1
      ensures Recorded(old(bytes), old(hpOffs[..]), key, mat0, at, bytes, hpOffs[..])
    {
      ghost var b0, cur0, offs0 := bytes, cur, hpOffs[..];
      uncompressedSiz := uncompressedSiz + |key| + 1;
      ghost var mat, back := WriteRecord(key, mat0, at);
      handle := (hpPrev - 1) * 2 + 1;
      SharesChosen(b0, offs0, cur0, key, mat0, at, mat, back);
      RecordedIs(b0, offs0, key, mat0, at, mat, back, bytes, hpOffs[..]);
      Packed(b0, offs0, cur0, key, mat, back, hpOffs[..], bytes, names, handles, handle);
    }

    /**
      compress_facility: m bytes are shared with the last name; at was their last byte's position. The
      record is the shorter one of those with and without the back-pointer, and the handle is that of
      the last byte.
     */
    method CompressFacility(key: seq<byte>) returns (handle: nat, ghost m: nat, ghost at: int)
      requires Valid() && NoZero(key) && |bytes| < POSITION_LIMIT
      modifies this, fmemBuf, hpBuf, hpOffs
      ensures Valid() && names == old(names) + [key] && handles == old(handles) + [handle] && cur == key
      ensures LongestShared(key, old(cur), m)
      ensures if m == 0 then at == |old(bytes)| else 0 <= at < |old(bytes)| && at == old(hpOffs[m - 1]) && Decode(old(bytes), at) == Some(key[..m])
      ensures Recorded(old(bytes), old(hpOffs[..]), key, m, at, bytes, hpOffs[..]) && handle == 2 * (|bytes| - 1) + 1
      ensures fresh(Arrays() - old(Arrays()))
    {
      var mat0;
      mat0, at := Prepare(key);
      m := mat0;
      ghost var offs := hpOffs[..];
      handle := AddRecord(key, mat0, at);
      RecordedFrom(old(bytes), old(hpOffs[..]), offs, |old(cur)|, key, m, at, bytes, hpOffs[..]);
    }

    /**
      hier_decompress_flagged: a handle is unpacked back to front into str, anything else is
      handed back. The C code writes into a buffer of longestname + 1 bytes.
     */
    method DecompressFlagged(n: nat, longestName: nat) returns (r: Depacked)
      requires Buffered()
      requires doHierCompress && n % 2 == 1 ==> n / 2 < |bytes| && Decode(bytes, n / 2).Some? && |Decode(bytes, n / 2).value| <= longestName
      ensures r == if !doHierCompress || n % 2 == 0 then Plain(n) else Unpacked(Decode(bytes, n / 2).value)
    {
      if !doHierCompress || n % 2 == 0 {
        return Plain(n);
      }
      var name := Unpack(n / 2, longestName);
      r := Unpacked(name);
    }

    /** The bytes after the last 0 at or before dcd0 are copied in front of str[ob0]. */
    method CopySuffix(dcd0: nat, str: array<byte>, ob0: nat, end: nat) returns (z: nat, ob: nat)
      requires Buffered() && dcd0 < |bytes| && ob0 <= end <= str.Length && str != fmemBuf
      requires 0 <= Zero(bytes, dcd0) && dcd0 - Zero(bytes, dcd0) <= ob0
      modifies str
      ensures z == Zero(bytes, dcd0) && ob == ob0 - (dcd0 - z)
      ensures str[ob..end] == bytes[z + 1..dcd0 + 1] + old(str[ob0..end])
    {
      z, ob := dcd0, ob0;
      ghost var b, tail := bytes, str[ob0..end];
      CopyStart(b, dcd0, tail);
      while fmemBuf[z] != 0
        invariant z < |b| && b == bytes && fmemBuf[z] == b[z] && ob <= end
        invariant Copied(b, z, dcd0, ob, ob0, str[ob..end], tail)
        decreases z
      {
        CopyStep(b, z, dcd0, ob, ob0, str[ob..end], tail);
        z, ob := PutByte(str, z, ob, end);
      }
      ZeroStep(b, z);
    }

    /** Puts one byte of the buffer in front of what is done and steps back. */
    method PutByte(str: array<byte>, z0: nat, ob0: nat, end: nat) returns (z: nat, ob: nat)
      requires Buffered() && 0 < z0 < |bytes| && 0 < ob0 <= end <= str.Length && str != fmemBuf
      modifies str
      ensures z == z0 - 1 && ob == ob0 - 1 && str[ob..end] == [bytes[z0]] + old(str[ob0..end])
      ensures fmemBuf[z] == bytes[z]
    {
      assert fmemBuf[z0] == bytes[z0];
      ob := ob0 - 1;
      str[ob] := fmemBuf[z0];
      z := z0 - 1;
    }

    /** The integer that ends at e, read backwards. */
    method ReadVli(e: int) returns (start: nat, val: nat)
      requires Buffered() && e < |bytes| && Dec(bytes, e).Some?
      ensures Dec(bytes, e) == Some(Vli(start, val))
    {
      var dcd2: nat, mult: nat := e, 1;
      val := 0;
      DecStep(bytes, e);
      while fmemBuf[dcd2] >= 128
        invariant Read(bytes, e, dcd2, mult, val)
        decreases dcd2
      {
        dcd2, mult, val := ReadGroup(e, dcd2, mult, val);
      }
      ReadEnd(bytes, e, dcd2, mult, val);
      val := val + fmemBuf[dcd2] as nat % 128 * mult;
      start := dcd2;
    }

    /** Adds the seven bits of one group. */
    method ReadGroup(ghost e: nat, dcd2: nat, mult: nat, val: nat) returns (dcd2': nat, mult': nat, val': nat)
      requires Buffered() && Read(bytes, e, dcd2, mult, val) && fmemBuf[dcd2] >= 128
      ensures dcd2' < dcd2 && Read(bytes, e, dcd2', mult', val')
    {
      ReadStep(bytes, e, dcd2, mult, val);
      val' := val + fmemBuf[dcd2] as nat % 128 * mult;
      mult' := mult * 128;
      dcd2' := dcd2 - 1;
    }

    /** One turn of the outer loop: a suffix and its back-pointer. */
    method UnpackHop(d: nat, str: array<byte>, ob0: nat, end: nat, ghost whole: seq<byte>) returns (more: bool, d': nat, ob: nat)
      requires Buffered() && ob0 <= end <= str.Length && str != fmemBuf && |whole| <= end
      requires Open(bytes, d, str[ob0..end], whole)
      modifies str
      ensures ob <= end
      ensures if more then d' < d && Open(bytes, d', str[ob..end], whole) else str[ob..end] == whole
    {
      ghost var done := str[ob0..end];
      OpenFits(bytes, d, done, whole, end);
      var z;
      z, ob := CopySuffix(d, str, ob0, end);
      var start, val := ReadVli(z - 1);
      Hopped(bytes, d, done, whole, start, val, str[ob..end]);
      more := val != 0;
      d' := if more then start - val else d;
    }

    /** The two nested loops of hier_decompress_flagged. */
    method Unpack(dcd0: nat, longestName: nat) returns (name: seq<byte>)
      requires Buffered() && dcd0 < |bytes|
      requires Decode(bytes, dcd0).Some? && |Decode(bytes, dcd0).value| <= longestName
      ensures name == Decode(bytes, dcd0).value
    {
      var str := new byte[longestName + 1](_ => 0);
      var ob: nat, dcd: nat := longestName, dcd0;
      ghost var whole := Decode(bytes, dcd0).value;
      assert whole + str[ob..longestName] == whole;
      var more := true;
      while more
        invariant Buffered() && bytes == old(bytes) && ob <= longestName
        invariant if more then Open(bytes, dcd, str[ob..longestName], whole) else str[ob..longestName] == whole
        decreases more, dcd
      {
        more, dcd, ob := UnpackHop(dcd, str, ob, longestName, whole);
      }
      name := str[ob..longestName];
    }
  }

  /* ---------- whole runs ---------- */

  /** Packs any names; all their handles are in its books afterwards. */
  method PackAll(keys: seq<seq<byte>>) returns (p: Packer, handles: seq<nat>)
    requires forall k :: k in keys ==> NoZero(k)
    requires Total(keys) + |keys| < POSITION_LIMIT
    ensures p.Valid() && p.doHierCompress && p.names == keys && p.handles == handles
    ensures |p.bytes| <= Total(keys) + |keys|
    ensures fresh(p) && fresh(p.Arrays())
  {
    if keys == [] {
      p := new Packer(true);
      handles := [];
    } else {
      var last := |keys| - 1;
      p, handles := PackAll(keys[..last]);
      var h;
      ghost var m, at;
      h, m, at := p.CompressFacility(keys[last]);
      handles := handles + [h];
      assert keys[..last] + [keys[last]] == keys;
    }
  }

  /** Unpacking the handle of the j-th name gives that name, whatever was packed after it. */
  method UnpackIssued(p: Packer, handle: nat, longestName: nat, ghost j: nat) returns (r: Depacked)
    requires p.Valid() && p.doHierCompress && j < |p.names| && handle == p.handles[j] && |p.names[j]| <= longestName
    ensures r == Unpacked(p.names[j])
  {
    assert IssuedAt(p.bytes, p.names, p.handles, j);
    r := p.DecompressFlagged(handle, longestName);
  }

  /** The unpacking stands at d: the name found there, put in front of what is done, is the whole. */
  ghost predicate Open(b: seq<byte>, d: nat, done: seq<byte>, whole: seq<byte>) {
    d < |b| && Decode(b, d).Some? && Decode(b, d).value + done == whole
  }

  lemma OpenFits(b: seq<byte>, d: nat, done: seq<byte>, whole: seq<byte>, end: int)
    requires Open(b, d, done, whole) && |whole| <= end
    ensures 0 <= Zero(b, d) <= d && Dec(b, Zero(b, d) - 1).Some? && d - Zero(b, d) + |done| <= end
  {
    assert !HopAt(b, d).Bad?;
  }

  lemma OpenFirst(b: seq<byte>, d: nat, done: seq<byte>, whole: seq<byte>, s: nat)
    requires Open(b, d, done, whole) && 0 <= Zero(b, d) && Dec(b, Zero(b, d) - 1) == Some(Vli(s, 0))
    ensures b[Zero(b, d) + 1..d + 1] + done == whole
  {
    assert HopAt(b, d) == First(Zero(b, d));
  }

  lemma OpenBack(b: seq<byte>, d: nat, done: seq<byte>, whole: seq<byte>, s: nat, v: nat)
    requires Open(b, d, done, whole) && 0 <= Zero(b, d) && Dec(b, Zero(b, d) - 1) == Some(Vli(s, v)) && v != 0
    ensures v <= s && s - v < d && Open(b, s - v, b[Zero(b, d) + 1..d + 1] + done, whole)
  {
    var z := Zero(b, d);
    assert !HopAt(b, d).Bad?;
    assert HopAt(b, d) == Back(z, s - v);
    DecodeBack(b, d, z, s - v);
    Assoc(Decode(b, s - v).value, b[z + 1..d + 1], done);
  }

  /** One hop: either an earlier record goes on, or the name is complete. */
  lemma Hopped(b: seq<byte>, d: nat, done: seq<byte>, whole: seq<byte>, s: nat, v: nat, now: seq<byte>)
    requires Open(b, d, done, whole) && 0 <= Zero(b, d) && Dec(b, Zero(b, d) - 1) == Some(Vli(s, v))
    requires now == b[Zero(b, d) + 1..d + 1] + done
    ensures if v != 0 then v <= s && s - v < d && Open(b, s - v, now, whole) else now == whole
  {
    if v != 0 {
      OpenBack(b, d, done, whole, s, v);
    } else {
      OpenFirst(b, d, done, whole, s);
    }
  }

  lemma Assoc(x: seq<byte>, y: seq<byte>, z: seq<byte>)
    ensures x + (y + z) == (x + y) + z
  {
  }

  lemma DecodeBack(b: seq<byte>, d: nat, z: nat, prev: nat)
    requires d < |b| && Decode(b, d).Some? && HopAt(b, d) == Back(z, prev)
    ensures Decode(b, prev).Some? && Decode(b, d).value == Decode(b, prev).value + b[z + 1..d + 1]
  {
  }

  lemma ZeroStep(b: seq<byte>, z: nat)
    requires z < |b| && 0 <= Zero(b, z)
    ensures if b[z] == 0 then Zero(b, z) == z else 0 < z && Zero(b, z) == Zero(b, z - 1)
  {
  }

  /** The unpacking loop stands at z: what follows z is copied, the 0 is still to come. */
  ghost predicate Copied(b: seq<byte>, z: nat, d: nat, ob: nat, ob0: nat, s: seq<byte>, tail: seq<byte>) {
    && z <= d < |b| && 0 <= Zero(b, d) && Zero(b, z) == Zero(b, d) && d - Zero(b, d) <= ob0 && ob == ob0 - (d - z)
    && s == b[z + 1..d + 1] + tail
  }

  lemma CopyStart(b: seq<byte>, d: nat, tail: seq<byte>)
    requires d < |b|
    ensures tail == b[d + 1..d + 1] + tail
  {
  }

  lemma CopyStep(b: seq<byte>, z: nat, d: nat, ob: nat, ob0: nat, s: seq<byte>, tail: seq<byte>)
    requires z < |b| && b[z] != 0 && Copied(b, z, d, ob, ob0, s, tail)
    ensures 0 < z && 0 < ob && Copied(b, z - 1, d, ob - 1, ob0, [b[z]] + s, tail)
  {
    ZeroStep(b, z);
    assert b[z..d + 1] == [b[z]] + b[z + 1..d + 1];
  }

  lemma DecStep(b: seq<byte>, e: int)
    requires e < |b| && Dec(b, e).Some?
    ensures 0 <= e && (b[e] < 128 ==> Dec(b, e).value == Vli(e, b[e] as nat % 128))
    ensures b[e] >= 128 ==> 1 <= e && Dec(b, e - 1).Some? && Dec(b, e).value.start == Dec(b, e - 1).value.start
    ensures b[e] >= 128 ==> Dec(b, e).value.val == 128 * Dec(b, e - 1).value.val + b[e] as nat % 128
  {
  }

  /** The integer loop stands at c: val is the value of the groups after c. */
  ghost predicate Read(b: seq<byte>, e: nat, c: nat, mult: nat, val: nat) {
    && c <= e < |b| && Dec(b, e).Some? && Dec(b, c).Some?
    && Dec(b, e).value.start == Dec(b, c).value.start
    && Dec(b, e).value.val == val + mult * Dec(b, c).value.val
  }

  lemma ReadStep(b: seq<byte>, e: nat, c: nat, mult: nat, val: nat)
    requires c < |b| && b[c] >= 128 && Read(b, e, c, mult, val)
    ensures 0 < c && Read(b, e, c - 1, mult * 128, val + b[c] as nat % 128 * mult)
  {
    DecStep(b, c);
    ShiftUp(mult, Dec(b, c - 1).value.val, b[c] as nat % 128);
  }

  lemma ReadEnd(b: seq<byte>, e: nat, c: nat, mult: nat, val: nat)
    requires c < |b| && b[c] < 128 && Read(b, e, c, mult, val)
    ensures Dec(b, e) == Some(Vli(c, val + b[c] as nat % 128 * mult))
  {
    DecStep(b, c);
    ShiftUp(mult, 0, b[c] as nat % 128);
  }

  lemma ShiftUp(mult: nat, v: nat, r: nat)
    ensures mult * (128 * v + r) == r * mult + (mult * 128) * v
  {
  }
}
