/** Reading the ChaCha8 stream as bytes in chunks of any size (benchmarks/native/gorand.h:80-101,
    against tools/check_random.py:265-271): a partly used word waits in an eight-byte buffer. */
module ChaChaRead {
  import opened ChaCha

  class Reader {
    const st: ChaCha8
    const readBuf: array<nat>
    var readLen: nat

    /** The machine, and the last readLen bytes of the word drawn last. */
    ghost predicate Valid()
      reads this, readBuf, st, st.seed, st.buf
    {
      && st.Valid() && readBuf.Length == 8 && readBuf != st.seed && readBuf != st.buf
      && readLen < 8
      && (readLen > 0 ==>
            && st.Pos() > 0
            && forall j :: 8 - readLen <= j < 8 ==>
                 readBuf[j] == ByteOf(StreamWord(st.rounds, st.key, st.Pos() - 1), j))
    }

    /** The number of bytes read so far. */
    ghost function Pos(): int
      reads this, st
    {
      8 * st.Pos() - readLen
    }

    ghost function At(q: int): nat
      requires GoodRounds(st.rounds) && |st.key| == 8 && q >= 0
    {
      StreamByte(st.rounds, st.key, q)
    }

    constructor (rounds: Rounds, bytes: seq<nat>)
      requires GoodRounds(rounds) && |bytes| == 32 && forall j :: 0 <= j < 32 ==> bytes[j] < 256
      ensures Valid() && Pos() == 0 && fresh(st) && fresh(st.seed) && fresh(st.buf) && fresh(readBuf)
      ensures st.rounds == rounds && st.key == WordsOf(bytes)
    {
      st := new ChaCha8(rounds, bytes);
      readBuf := new nat[8];
      readLen := 0;
    }

    ghost predicate Apart(p: array<nat>)
      reads this
    {
      p != readBuf && p != st.seed && p != st.buf
    }

    /** The first off bytes of p are those of the stream from position from. */
    ghost predicate Filled(p: array<nat>, off: nat, from: int)
      requires GoodRounds(st.rounds) && |st.key| == 8 && from >= 0
      reads this, p
    {
      off <= p.Length && forall j :: 0 <= j < off ==> p[j] == At(from + j)
    }

    method TakeBuffered(p: array<nat>) returns (off: nat)
      requires Valid() && Apart(p) && readLen > 0
      modifies this`readLen, p
      ensures Valid() && off == (if old(readLen) < p.Length then old(readLen) else p.Length)
      ensures Pos() == old(Pos()) + off && (off < p.Length ==> readLen == 0)
      ensures Filled(p, off, old(Pos()))
    {
      hide StreamWord, ByteOf, GoodRounds, ChunkWord, KeyAt, SeedKey;
      off := if readLen < p.Length then readLen else p.Length;
      forall j | 0 <= j < off { p[j] := readBuf[8 - readLen + j]; }
      forall j | 0 <= j < off ensures p[j] == At(old(Pos()) + j) {
        ByteIndex(st.Pos() - 1, 8 - readLen + j);
      }
      readLen := readLen - off;
    }

    method PutWord(p: array<nat>, off: nat, ghost from: int)
      requires Valid() && Apart(p) && readLen == 0 && off + 8 <= p.Length
      requires from >= 0 && Filled(p, off, from) && Pos() == from + off
      modifies st, st.buf, st.seed, p
      ensures Valid() && Pos() == from + off + 8 && Filled(p, off + 8, from)
    {
      hide StreamWord, ByteOf, GoodRounds, ChunkWord, KeyAt, SeedKey;
      ghost var w := st.Pos();
      var x := st.Uint64();
      forall j | 0 <= j < 8 { p[off + j] := ByteOf(x, j); }
      forall j | off <= j < off + 8 ensures p[j] == At(from + j) {
        ByteIndex(w, j - off);
        assert p[off + (j - off)] == ByteOf(x, j - off);
      }
    }

    method PutTail(p: array<nat>, off: nat, ghost from: int)
      requires Valid() && Apart(p) && readLen == 0 && off < p.Length < off + 8
      requires from >= 0 && Filled(p, off, from) && Pos() == from + off
      modifies this`readLen, readBuf, st, st.buf, st.seed, p
      ensures Valid() && Pos() == from + p.Length && Filled(p, p.Length, from)
    {
      hide StreamWord, ByteOf, GoodRounds, ChunkWord, KeyAt, SeedKey;
      ghost var w := st.Pos();
      var x := st.Uint64();
      forall j | 0 <= j < 8 { readBuf[j] := ByteOf(x, j); }
      forall j | off <= j < p.Length { p[j] := readBuf[j - off]; }
      forall j | off <= j < p.Length ensures p[j] == At(from + j) { ByteIndex(w, j - off); }
      readLen := 8 - (p.Length - off);
    }

    /** gorand.h:85-101. The next p.Length bytes of the stream, whatever was read before. */
    method Read(p: array<nat>)
      requires Valid() && Apart(p)
      modifies this`readLen, readBuf, st, st.buf, st.seed, p
      ensures Valid() && Pos() == old(Pos()) + p.Length
      ensures Filled(p, p.Length, old(Pos())) && HoldsWords(st.rounds, st.key, p[..], old(Pos()))
    {
      hide StreamWord, ByteOf, StreamByte, GoodRounds, ChunkWord, KeyAt, SeedKey;
      var off := 0;
      if readLen > 0 {
        off := TakeBuffered(p);
      }
      while p.Length - off >= 8
        invariant 0 <= off <= p.Length && Valid() && Pos() == old(Pos()) + off
        invariant off < p.Length ==> readLen == 0
        invariant Filled(p, off, old(Pos()))
      {
        PutWord(p, off, old(Pos()));
        off := off + 8;
      }
      if off < p.Length {
        PutTail(p, off, old(Pos()));
      }
      WordsRead(st.rounds, st.key, p[..], old(Pos()));
    }

    /** Any number of reads of any sizes: together they are one read of the sum. */
    method ReadChunks(sizes: seq<nat>) returns (out: seq<nat>)
      requires Valid()
      modifies this`readLen, readBuf, st, st.buf, st.seed
      ensures Valid() && Pos() == old(Pos()) + |out| && |out| == Sum(sizes)
      ensures forall j :: 0 <= j < |out| ==> out[j] == At(old(Pos()) + j)
      ensures HoldsWords(st.rounds, st.key, out, old(Pos()))
    {
      hide StreamWord, ByteOf, StreamByte, GoodRounds, ChunkWord, KeyAt, SeedKey;
      out := [];
      var k := 0;
      while k < |sizes|
        invariant 0 <= k <= |sizes| && Valid()
        invariant |out| == Sum(sizes[..k]) && Pos() == old(Pos()) + |out|
        invariant forall j :: 0 <= j < |out| ==> out[j] == At(old(Pos()) + j)
      {
        var p := new nat[sizes[k]];
        ghost var from := Pos();
        Read(p);
        assert sizes[..k + 1][..k] == sizes[..k];
        out := out + p[..];
        k := k + 1;
      }
      assert sizes[..k] == sizes;
      WordsRead(st.rounds, st.key, out, old(Pos()));
    }
  }

  function Sum(ns: seq<nat>): nat
    decreases |ns|
  {
    if ns == [] then 0 else Sum(ns[..|ns| - 1]) + ns[|ns| - 1]
  }

  lemma ByteIndex(w: nat, j: nat)
    requires j < 8
    ensures (8 * w + j) / 8 == w && (8 * w + j) % 8 == j
  {}

  /** The eight bytes from position 8 w on are word w of the stream, least significant byte first. */
  ghost predicate HoldsWords(rounds: Rounds, key: seq<nat>, bs: seq<nat>, from: int)
    requires GoodRounds(rounds) && |key| == 8 && from >= 0
  {
    forall w: nat :: from <= 8 * w && 8 * w + 8 <= from + |bs| ==>
                       Le(bs[8 * w - from..8 * w - from + 8]) == StreamWord(rounds, key, w)
  }

  lemma WordsRead(rounds: Rounds, key: seq<nat>, bs: seq<nat>, from: int)
    requires GoodRounds(rounds) && |key| == 8 && from >= 0
    requires forall j :: 0 <= j < |bs| ==> bs[j] == StreamByte(rounds, key, from + j)
    ensures HoldsWords(rounds, key, bs, from)
  {
    hide StreamWord, ByteOf, Le, GoodRounds;
    forall w: nat | from <= 8 * w && 8 * w + 8 <= from + |bs|
      ensures Le(bs[8 * w - from..8 * w - from + 8]) == StreamWord(rounds, key, w)
    {
      WordRead(rounds, key, bs[8 * w - from..8 * w - from + 8], w);
    }
  }

  /** Eight consecutive bytes of the stream from the beginning of a word. */
  lemma WordRead(rounds: Rounds, key: seq<nat>, bs: seq<nat>, w: nat)
    requires GoodRounds(rounds) && |key| == 8 && |bs| == 8
    requires forall j :: 0 <= j < 8 ==> bs[j] == StreamByte(rounds, key, 8 * w + j)
    ensures Le(bs) == StreamWord(rounds, key, w) && forall j :: 0 <= j < 8 ==> bs[j] < 256
  {
    hide StreamWord, ByteOf, Le, GoodRounds;
    forall j | 0 <= j < 8 ensures bs[j] == ByteOf(StreamWord(rounds, key, w), j) { ByteIndex(w, j); }
    StreamBelow(rounds, key, w);
    WordBytes(StreamWord(rounds, key, w), bs);
  }
}
