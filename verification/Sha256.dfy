/** Incremental SHA-256 (benchmarks/native/sha256_ctx.h:39-72) over any compression function: the
    message may arrive in any pieces, the digest is that of the whole message padded as section 5.1.1
    of FIPS 180-4 says. */
module Sha256 {
  import opened Arith

  type Bytes = seq<nat>
  type Compress = (seq<nat>, Bytes) -> seq<nat>

  const W64: nat := 0x1_0000_0000_0000_0000

  const H0: seq<nat> :=
    [0x6a09e667, 0xbb67ae85, 0x3c6ef372, 0xa54ff53a, 0x510e527f, 0x9b05688c, 0x1f83d9ab, 0x5be0cd19]

  // ---- the hash of a message ----

  /** The chaining value after the whole blocks of m. */
  function Chain(f: Compress, m: Bytes): seq<nat>
    requires |m| % 64 == 0
    decreases |m|
  {
    if m == [] then H0 else f(Chain(f, m[..|m| - 64]), m[|m| - 64..])
  }

  /** The n low bytes of x, most significant first. */
  function BigEndian(x: nat, n: nat): (b: Bytes)
    ensures |b| == n
    decreases n
  {
    if n == 0 then [] else BigEndian(x / 256, n - 1) + [x % 256]
  }

  function Zeros(n: nat): (b: Bytes)
    ensures |b| == n
  {
    seq(n, i => 0)
  }

  /** The zero bytes of the padding: the fewest that leave the length in the last eight of a block. */
  function ZeroCount(n: nat): (k: nat)
    ensures k < 64 && (n + 1 + k + 8) % 64 == 0
  {
    (119 - n % 64) % 64
  }

  /** A one bit, zero bits, and the length in bits modulo 2^64. */
  function Padding(n: nat): Bytes {
    [0x80] + Zeros(ZeroCount(n)) + BigEndian((8 * n) % W64, 8)
  }

  function Padded(m: Bytes): (p: Bytes)
    ensures |p| % 64 == 0
  {
    m + Padding(|m|)
  }

  /** The chaining words, each most significant byte first. */
  function Encoded(h: seq<nat>): (b: Bytes)
    ensures |b| == 4 * |h|
    decreases |h|
  {
    if h == [] then [] else Encoded(h[..|h| - 1]) + BigEndian(h[|h| - 1], 4)
  }

  function Digest(f: Compress, m: Bytes): Bytes {
    Encoded(Chain(f, Padded(m)))
  }

  /** The compression maps eight words to eight words. */
  ghost predicate GoodCompress(f: Compress) {
    forall h: seq<nat>, b: Bytes {:trigger f(h, b)} :: |h| == 8 && |b| == 64 ==> |f(h, b)| == 8
  }

  lemma {:induction false} ChainLength(f: Compress, m: Bytes)
    requires GoodCompress(f) && |m| % 64 == 0
    ensures |Chain(f, m)| == 8
    decreases |m|
  {
    if m != [] { ChainLength(f, m[..|m| - 64]); }
  }

  lemma ChainStep(f: Compress, m: Bytes, b: Bytes)
    requires |m| % 64 == 0 && |b| == 64
    ensures Chain(f, m + b) == f(Chain(f, m), b)
  {
    assert (m + b)[..|m + b| - 64] == m && (m + b)[|m + b| - 64..] == b;
  }

  // ---- the padding can be undone ----

  lemma {:induction false} BigEndianInjective(x: nat, y: nat, n: nat)
    requires BigEndian(x, n) == BigEndian(y, n)
    ensures x % Pow256(n) == y % Pow256(n)
    decreases n
  {
    if n > 0 {
      var a, b := BigEndian(x, n), BigEndian(y, n);
      assert a[..n - 1] == BigEndian(x / 256, n - 1) && b[..n - 1] == BigEndian(y / 256, n - 1);
      assert a[n - 1] == x % 256 && b[n - 1] == y % 256;
      BigEndianInjective(x / 256, y / 256, n - 1);
      ModByte(x, Pow256(n - 1)); ModByte(y, Pow256(n - 1));
    }
  }

  lemma ModByte(x: nat, p: nat)
    requires p > 0
    ensures x % (256 * p) == 256 * (x / 256 % p) + x % 256
  {
    DivDiv(x, 256, p);
  }

  /** Messages short enough for the length field are determined by their padded form. */
  lemma PaddedInjective(m: Bytes, n: Bytes)
    requires 8 * |m| < W64 && 8 * |n| < W64 && Padded(m) == Padded(n)
    ensures m == n
  {
    hide BigEndian, Zeros;
    var p := Padded(m);
    PaddedEnds(m); PaddedEnds(n);
    BigEndianInjective(8 * |m|, 8 * |n|, 8);
    LengthRange();
    ModSmall(8 * |m|, Pow256(8)); ModSmall(8 * |n|, Pow256(8));
  }

  lemma LengthRange()
    ensures Pow256(8) == W64
  {}

  lemma PaddedEnds(m: Bytes)
    requires 8 * |m| < W64
    ensures var p := Padded(m);
            |p| >= |m| + 9 && p[..|m|] == m && p[|p| - 8..] == BigEndian(8 * |m|, 8)
  {
    hide BigEndian, Zeros;
    ModSmall(8 * |m|, W64);
    var z, e := [0x80] + Zeros(ZeroCount(|m|)), BigEndian(8 * |m|, 8);
    var p := Padded(m);
    assert p == m + (z + e) == (m + z) + e;
  }

  // ---- what the definitions say, byte by byte ----

  /** The most significant byte comes first. */
  lemma {:induction false} BigEndianByte(x: nat, n: nat, j: nat)
    requires j < n
    ensures BigEndian(x, n)[j] == x / Pow256(n - 1 - j) % 256
    decreases n
  {
    hide Pow256;
    PowersOf256(n - 1 - j);
    if j < n - 1 {
      BigEndianByte(x / 256, n - 1, j);
      PowersOf256(n - 2 - j);
      DivDiv(x, 256, Pow256(n - 2 - j));
    }
  }

  /** The padded message: the message, the byte 128, zeros, and in its last eight bytes the length in
      bits modulo 2^64, most significant byte first; no whole block could be left out. */
  lemma PaddedIs(m: Bytes, i: nat, j: nat)
    requires j < 8
    ensures var p := Padded(m);
            && |p| % 64 == 0 && |m| + 9 <= |p| < |m| + 73
            && p[..|m|] == m && p[|m|] == 0x80
            && (|m| < i < |p| - 8 ==> p[i] == 0)
            && p[|p| - 8 + j] == 8 * |m| % W64 / Pow256(7 - j) % 256
  {
    hide BigEndian, ZeroCount;
    BigEndianByte(8 * |m| % W64, 8, j);
  }

  /** A digest is the words of the chaining value, most significant byte first. */
  lemma DigestByte(f: Compress, m: Bytes, i: nat, j: nat)
    requires GoodCompress(f) && i < 8 && j < 4
    ensures |Digest(f, m)| == 32 && |Chain(f, Padded(m))| == 8
    ensures Digest(f, m)[4 * i + j] == Chain(f, Padded(m))[i] / Pow256(3 - j) % 256
  {
    hide Chain, Padded, Encoded, BigEndian, GoodCompress;
    ChainLength(f, Padded(m));
    EncodedByte(Chain(f, Padded(m)), i, j);
  }

  lemma {:induction false} EncodedByte(h: seq<nat>, i: nat, j: nat)
    requires i < |h| && j < 4
    ensures Encoded(h)[4 * i + j] == h[i] / Pow256(3 - j) % 256
    decreases |h|
  {
    hide BigEndian;
    var n := |h| - 1;
    if i < n { EncodedByte(h[..n], i, j); } else { BigEndianByte(h[n], 4, j); }
  }

  /** The chaining value is the compression of block after block, from the initial words on. */
  lemma ChainIs(f: Compress, m: Bytes, b: Bytes)
    requires |m| % 64 == 0 && |b| == 64
    ensures Chain(f, []) == H0 && Chain(f, m + b) == f(Chain(f, m), b)
  {
    ChainStep(f, m, b);
  }

  /** The initial words, section 5.3.3 of FIPS 180-4: the first 32 bits of the fractional parts of the
      square roots of the first eight primes. */
  lemma InitialWords(i: nat)
    requires i < 8
    ensures |H0| == 8 && H0[i] < 0x1_0000_0000
    ensures var prime, root := [2, 3, 5, 7, 11, 13, 17, 19][i], [1, 1, 2, 2, 3, 3, 4, 4][i];
            var a := 0x1_0000_0000 * root + H0[i];
            a * a <= prime * W64 < (a + 1) * (a + 1)
  {}

  // ---- the context ----

  class Context {
    const f: Compress
    const buf: array<nat>
    var h: seq<nat>
    var fill: nat
    var len: nat
    /** Everything fed in so far. */
    ghost var fed: Bytes

    /** The chaining value covers the whole blocks fed in, the buffer holds the rest. */
    ghost predicate Valid()
      reads this, buf
    {
      && buf.Length == 64 && fill < 64 && fill <= |fed| && (|fed| - fill) % 64 == 0
      && buf[..fill] == fed[|fed| - fill..]
      && h == Chain(f, fed[..|fed| - fill])
      && len == |fed| % W64
    }

    /** sha256_ctx.h:41-44. */
    constructor (f: Compress)
      ensures Valid() && fed == [] && this.f == f && fresh(buf)
    {
      this.f := f;
      buf := new nat[64];
      h, fill, len := H0, 0, 0;
      fed := [];
    }

    /** sha256_ctx.h:46-56. */
    method Update(p: Bytes)
      requires Valid()
      modifies this, buf
      ensures Valid() && fed == old(fed) + p
    {
      hide Chain;
      LengthAdds(|fed|, |p|);
      len := (len + |p|) % W64;
      Aligned();
      var off := 0;
      if fill > 0 {
        off := TopUp(p);
        if fill > 0 { return; }
      }
      ghost var off0 := off;
      assert fed == old(fed) + p[..off0];
      off := Blocks(p, off, fed);
      Pieces(old(fed), p, off0, off);
      KeepRest(p[off..]);
    }

    /** With an empty buffer everything fed in is in the chaining value. */
    lemma Aligned()
      requires fill <= |fed|
      ensures fill == 0 ==> fed[..|fed| - fill] == fed
    {}

    /** A partly filled buffer takes what it can and is compressed when full. */
    method TopUp(p: Bytes) returns (off: nat)
      requires buf.Length == 64 && 0 < fill < 64 && fill <= |fed| && (|fed| - fill) % 64 == 0
      requires buf[..fill] == fed[|fed| - fill..] && h == Chain(f, fed[..|fed| - fill])
      requires len == |fed + p| % W64
      modifies buf, `fill, `fed, `h
      ensures off <= |p| && fed == old(fed) + p[..off]
      ensures fill == 0 ==> |fed| % 64 == 0 && h == Chain(f, fed)
      ensures fill > 0 ==> Valid() && p[..off] == p
    {
      hide Chain;
      off := if 64 - fill < |p| then 64 - fill else |p|;
      StillAligned(|fed|, fill, off);
      FillBuffer(p, off);
      if fill == 64 {
        CompressBuffer();
      } else {
        assert p[..off] == p;
      }
    }

    /** What is fed and what waits grow alike. */
    static lemma StillAligned(n: nat, fill: nat, off: nat)
      requires fill <= n && (n - fill) % 64 == 0
      ensures (n + off - (fill + off)) % 64 == 0 && (fill + off == 64 ==> (n + off) % 64 == 0)
    {
      if fill + off == 64 { ModAddMultiple(n - fill, 1, 64); }
    }

    /** The whole blocks of p from off on. */
    method Blocks(p: Bytes, off0: nat, ghost before: Bytes) returns (off: nat)
      requires off0 <= |p| && |fed| % 64 == 0 && h == Chain(f, fed) && before == fed
      modifies `h, `fed
      ensures off0 <= off <= |p| < off + 64 && fed == before + p[off0..off]
      ensures |fed| % 64 == 0 && h == Chain(f, fed)
    {
      hide Chain;
      off := off0;
      while |p| - off >= 64
        invariant off0 <= off <= |p| && fed == before + p[off0..off]
        invariant |fed| % 64 == 0 && h == Chain(f, fed)
      {
        var block := p[off..off + 64];
        ChainStep(f, fed, block);
        h := f(h, block);
        assert p[off0..off + 64] == p[off0..off] + block;
        fed := fed + block;
        off := off + 64;
      }
    }

    /** The buffer takes the first off bytes. */
    method FillBuffer(p: Bytes, off: nat)
      requires buf.Length == 64 && 0 < fill <= |fed| && off <= |p| && fill + off <= 64
      requires (|fed| - fill) % 64 == 0 && buf[..fill] == fed[|fed| - fill..]
      modifies buf, `fill, `fed
      ensures fill == old(fill) + off && fed == old(fed) + p[..off]
      ensures buf[..fill] == fed[|fed| - fill..] && fed[..|fed| - fill] == old(fed[..|fed| - fill])
    {
      forall j | 0 <= j < off { buf[fill + j] := p[j]; }
      assert buf[..fill + off] == old(buf[..fill]) + p[..off];
      fed := fed + p[..off];
      fill := fill + off;
    }

    method CompressBuffer()
      requires buf.Length == fill == 64 <= |fed| && |fed| % 64 == 0
      requires buf[..fill] == fed[|fed| - fill..] && h == Chain(f, fed[..|fed| - fill])
      modifies `h, `fill
      ensures fill == 0 && h == Chain(f, fed)
    {
      ChainStep(f, fed[..|fed| - 64], buf[..]);
      assert buf[..] == buf[..64];
      assert fed == fed[..|fed| - 64] + buf[..];
      h := f(h, buf[..]);
      fill := 0;
    }

    /** Fewer than 64 bytes wait in the empty buffer. */
    method KeepRest(rest: Bytes)
      requires buf.Length == 64 && fill == 0 && |rest| < 64 && |fed| % 64 == 0 && h == Chain(f, fed)
      requires len == |fed + rest| % W64
      modifies buf, `fill, `fed
      ensures Valid() && fed == old(fed) + rest
    {
      forall j | 0 <= j < |rest| { buf[j] := rest[j]; }
      fed := fed + rest;
      fill := |rest|;
      assert fed[..|fed| - fill] == old(fed);
      assert buf[..fill] == rest;
    }

    /** sha256_ctx.h:58-68. The digest of everything fed in; the context is spent. */
    method Final(out: array<nat>)
      requires Valid() && GoodCompress(f) && out.Length == 32 && out != buf
      modifies this, buf, out
      ensures out[..] == Digest(f, old(fed))
    {
      hide Chain, BigEndian, Encoded;
      ghost var m := fed;
      var pad, padn := MakePad();
      FedPadding(m, pad[..padn + 8], fill, padn);
      Update(pad[..padn + 8]);
      assert fed == Padded(m);
      Whole();
      ChainLength(f, fed);
      WriteWords(out, h);
    }

    /** After whole blocks nothing waits. */
    lemma Whole()
      requires Valid() && |fed| % 64 == 0
      ensures h == Chain(f, fed)
    {
      assert fill == 0;
      assert fed[..|fed| - fill] == fed;
    }

    /** The padding bytes, in the first padn + 8 bytes of the result. */
    method MakePad() returns (pad: array<nat>, padn: nat)
      requires fill < 64 && fill <= |fed| && (|fed| - fill) % 64 == 0 && len == |fed| % W64
      ensures fresh(pad) && pad.Length == 72 && padn == (if fill < 56 then 56 else 120) - fill
      ensures pad[..padn + 8] == [0x80] + Zeros(padn - 1) + BigEndian((8 * |fed|) % W64, 8)
    {
      hide BigEndian;
      var bits := len * 8 % W64;
      BitsOfLength(|fed|);
      pad := new nat[72](j => 0);
      pad[0] := 0x80;
      padn := (if fill < 56 then 56 else 120) - fill;
      var be := BigEndian(bits, 8);
      forall j | 0 <= j < 8 { pad[padn + j] := be[j]; }
      assert pad[..padn] == [0x80] + Zeros(padn - 1);
      assert pad[padn..padn + 8] == be;
      assert pad[..padn + 8] == pad[..padn] + pad[padn..padn + 8];
    }

    method WriteWords(out: array<nat>, words: seq<nat>)
      requires out.Length == 32 && |words| == 8
      modifies out
      ensures out[..] == Encoded(words)
    {
      hide Encoded, BigEndian;
      EncodedNone(words);
      var i := 0;
      while i < 8
        invariant 0 <= i <= 8 && out[..4 * i] == Encoded(words[..i])
      {
        WriteWord(out, i, words[i]);
        EncodedSnoc(words, i);
        i := i + 1;
      }
      assert words[..8] == words && out[..32] == out[..];
    }

    method WriteWord(out: array<nat>, i: nat, word: nat)
      requires out.Length == 32 && i < 8
      modifies out
      ensures out[..4 * (i + 1)] == old(out[..4 * i]) + BigEndian(word, 4)
    {
      hide BigEndian;
      var be := BigEndian(word, 4);
      forall j | 0 <= j < 4 { out[4 * i + j] := be[j]; }
      assert out[4 * i..4 * (i + 1)] == be;
      assert out[..4 * (i + 1)] == out[..4 * i] + out[4 * i..4 * (i + 1)];
    }
  }

  lemma Pieces(m: Bytes, p: Bytes, i: nat, j: nat)
    requires i <= j <= |p|
    ensures ((m + p[..i]) + p[i..j]) + p[j..] == m + p
  {}

  lemma EncodedNone(words: seq<nat>)
    ensures Encoded(words[..0]) == []
  {}

  lemma EncodedSnoc(words: seq<nat>, i: nat)
    requires i < |words|
    ensures Encoded(words[..i + 1]) == Encoded(words[..i]) + BigEndian(words[i], 4)
  {
    assert words[..i + 1][..i] == words[..i];
  }

  lemma LengthAdds(a: nat, b: nat)
    ensures (a % W64 + b) % W64 == (a + b) % W64
  {}

  /** The wrapping length and the wrapping product give the length in bits modulo 2^64. */
  lemma BitsOfLength(n: nat)
    ensures n % W64 * 8 % W64 == 8 * n % W64
  {
    DivMod(n, W64);
    ModAddMultiple(n % W64 * 8, n / W64 * 8, W64);
  }

  lemma PaddingIs(n: nat, k: nat)
    requires ZeroCount(n) == k
    ensures Padding(n) == [0x80] + Zeros(k) + BigEndian((8 * n) % W64, 8)
  {
    hide BigEndian, Zeros, ZeroCount;
  }

  /** What is fed in last is the padding. */
  lemma FedPadding(m: Bytes, pad: Bytes, fill: nat, padn: nat)
    requires fill < 64 && fill <= |m| && (|m| - fill) % 64 == 0
    requires 1 <= padn <= 64 && padn == (if fill < 56 then 56 else 120) - fill
    requires pad == [0x80] + Zeros(padn - 1) + BigEndian((8 * |m|) % W64, 8)
    ensures m + pad == Padded(m)
  {
    hide BigEndian, Zeros, ZeroCount, Padding;
    ZeroCountIs(|m|, fill, padn);
    PaddingIs(|m|, padn - 1);
  }

  lemma ZeroCountIs(n: nat, fill: nat, padn: int)
    requires fill < 64 && fill <= n && (n - fill) % 64 == 0 && padn == (if fill < 56 then 56 else 120) - fill
    ensures 1 <= padn <= 64 && ZeroCount(n) == padn - 1
  {
    assert n % 64 == fill;
  }

  function Concat(parts: seq<Bytes>): Bytes
    decreases |parts|
  {
    if parts == [] then [] else Concat(parts[..|parts| - 1]) + parts[|parts| - 1]
  }

  lemma ConcatSnoc(parts: seq<Bytes>, k: nat)
    requires k < |parts|
    ensures Concat(parts[..k + 1]) == Concat(parts[..k]) + parts[k]
  {
    assert parts[..k + 1][..k] == parts[..k];
  }

  /** Any split of a message into updates gives the digest of the whole. */
  method HashParts(f: Compress, parts: seq<Bytes>, out: array<nat>)
    requires out.Length == 32 && GoodCompress(f)
    modifies out
    ensures out[..] == Digest(f, Concat(parts))
  {
    hide Digest, GoodCompress, Concat, Context.Valid;
    var c := new Context(f);
    var k := 0;
    NoParts(parts);
    while k < |parts|
      invariant 0 <= k <= |parts| && c.Valid() && c.f == f && c.fed == Concat(parts[..k])
      modifies c, c.buf
    {
      c.Update(parts[k]);
      ConcatSnoc(parts, k);
      k := k + 1;
    }
    WholeList(parts);
    c.Final(out);
  }

  lemma WholeList(parts: seq<Bytes>)
    ensures parts[..|parts|] == parts
  {}

  lemma NoParts(parts: seq<Bytes>)
    ensures Concat(parts[..0]) == []
  {}

  /** sha256_oneshot is the case of one part. */
  method OneShot(f: Compress, p: Bytes, out: array<nat>)
    requires out.Length == 32 && GoodCompress(f)
    modifies out
    ensures out[..] == Digest(f, p)
  {
    var c := new Context(f);
    c.Update(p);
    assert [] + p == p;
    c.Final(out);
  }
}
