/** The ChaCha8 generator of benchmarks/native/gorand.h:19-101 against the stream of the C2SP
    chacha8rand specification as tools/check_random.py:170-215, 265-271 states it. The eight rounds
    are an arbitrary function on sixteen 32-bit words. */
module ChaCha {
  import opened Arith

  const W32: nat := 0x1_0000_0000

  type Rounds = seq<nat> -> seq<nat>

  predicate AreWords(s: seq<nat>) {
    forall k :: 0 <= k < |s| ==> s[k] < W32
  }

  ghost predicate GoodRounds(rounds: Rounds) {
    forall s: seq<nat> {:trigger rounds(s)} :: |s| == 16 ==> |rounds(s)| == 16 && AreWords(rounds(s))
  }

  const CONSTANTS: seq<nat> := [0x61707865, 0x3320646e, 0x79622d32, 0x6b206574]

  function Pair(lo: nat, hi: nat): nat { lo + W32 * hi }

  // ---- the C2SP stream ----

  /** The input block: constants, key, counter and a zero nonce. */
  function Init(key: seq<nat>, counter: nat): (s: seq<nat>)
    requires |key| == 8
    ensures |s| == 16
  {
    CONSTANTS + key + [counter, 0, 0, 0]
  }

  /** Subtraction modulo 2^32. */
  function Minus(a: nat, b: nat): nat
    requires b < W32
  {
    (a + W32 - b) % W32
  }

  /** The block function of RFC 8439 with eight rounds; the constants and the counter taken off again. */
  function BlockWord(rounds: Rounds, key: seq<nat>, i: nat, r: nat): nat
    requires |key| == 8 && i < 16 && r < 16 && |rounds(Init(key, i))| == 16
  {
    var init := Init(key, i);
    var w := (rounds(init)[r] + init[r]) % W32;
    if r < 4 then Minus(w, CONSTANTS[r]) else if r == 12 then Minus(w, i) else w
  }

  /** Word w of an iteration's 256: groups of four blocks, interleaved word by word. */
  ghost function IterWord(rounds: Rounds, key: seq<nat>, w: nat): nat
    requires GoodRounds(rounds) && |key| == 8 && w < 256
  {
    BlockWord(rounds, key, 4 * (w / 64) + w % 4, w % 64 / 4)
  }

  /** The key of iteration t: the last eight words of the iteration before. */
  ghost function KeyAt(rounds: Rounds, key: seq<nat>, t: nat): (k: seq<nat>)
    requires GoodRounds(rounds) && |key| == 8
    ensures |k| == 8
    decreases t
  {
    if t == 0 then key
    else
      var k := KeyAt(rounds, key, t - 1);
      seq(8, j requires 0 <= j < 8 => IterWord(rounds, k, 248 + j))
  }

  /** Output number p: 124 pairs of words from each iteration. */
  ghost function StreamWord(rounds: Rounds, key: seq<nat>, p: nat): nat
    requires GoodRounds(rounds) && |key| == 8
  {
    var k := KeyAt(rounds, key, p / 124);
    Pair(IterWord(rounds, k, 2 * (p % 124)), IterWord(rounds, k, 2 * (p % 124) + 1))
  }

  /** Byte j of a 64-bit word. */
  function ByteOf(x: nat, j: nat): nat
    decreases j
  {
    if j == 0 then x % 256 else ByteOf(x / 256, j - 1)
  }

  ghost function StreamByte(rounds: Rounds, key: seq<nat>, q: nat): nat
    requires GoodRounds(rounds) && |key| == 8
  {
    ByteOf(StreamWord(rounds, key, q / 8), q % 8)
  }

  // ---- the chunked machine ----

  /** The eight key words that four seed words hold. */
  function SeedKey(seed: seq<nat>): (k: seq<nat>)
    requires |seed| == 4
    ensures |k| == 8
  {
    seq(8, j requires 0 <= j < 8 => if j % 2 == 0 then seed[j / 2] % W32 else seed[j / 2] / W32)
  }

  /** A lane after the rounds: only the key words are added back. */
  function LaneWord(rounds: Rounds, init: seq<nat>, r: nat): nat
    requires |init| == 16 && r < 16 && |rounds(init)| == 16
  {
    if 4 <= r < 12 then (init[r] + rounds(init)[r]) % W32 else rounds(init)[r]
  }

  /** Word k of the buffer of one chunk. */
  ghost function ChunkWord(rounds: Rounds, key: seq<nat>, counter: nat, k: nat): nat
    requires GoodRounds(rounds) && |key| == 8 && k < 32
  {
    var r, l := k / 2, 2 * (k % 2);
    Pair(LaneWord(rounds, Init(key, counter + l), r), LaneWord(rounds, Init(key, counter + l + 1), r))
  }

  lemma MinusBack(x: nat, c: nat)
    requires x < W32 && c < W32
    ensures Minus((x + c) % W32, c) == x
  {}

  lemma InitWord(key: seq<nat>, i: nat, r: nat)
    requires |key| == 8 && r < 16
    ensures Init(key, i)[r] == if r < 4 then CONSTANTS[r] else if r < 12 then key[r - 4] else if r == 12 then i else 0
  {}

  /** Not adding the constants and the counter back is adding them and taking them off again. */
  lemma LaneIsBlock(rounds: Rounds, key: seq<nat>, i: nat, r: nat)
    requires GoodRounds(rounds) && |key| == 8 && i < 16 && r < 16
    ensures LaneWord(rounds, Init(key, i), r) == BlockWord(rounds, key, i, r)
  {
    hide Init, Minus;
    var init := Init(key, i);
    var x := rounds(init)[r];
    InitWord(key, i, r);
    if r < 4 { MinusBack(x, CONSTANTS[r]); }
    if r == 12 { MinusBack(x, i); }
  }

  lemma WordIndex(g: nat, k: nat)
    requires g < 4 && k < 32
    ensures var w := 64 * g + 2 * k;
            && w / 64 == g && w % 64 / 4 == k / 2 && w % 4 == 2 * (k % 2)
            && (w + 1) / 64 == g && (w + 1) % 64 / 4 == k / 2 && (w + 1) % 4 == 2 * (k % 2) + 1
  {}

  /** Chunk g of an iteration holds its words 64 g to 64 g + 63 in pairs. */
  lemma ChunkIsIteration(rounds: Rounds, key: seq<nat>, g: nat, k: nat)
    requires GoodRounds(rounds) && |key| == 8 && g < 4 && k < 32
    ensures ChunkWord(rounds, key, 4 * g, k) ==
            Pair(IterWord(rounds, key, 64 * g + 2 * k), IterWord(rounds, key, 64 * g + 2 * k + 1))
  {
    hide BlockWord, LaneWord, Init, Pair, GoodRounds;
    WordIndex(g, k);
    LaneIsBlock(rounds, key, 4 * g + 2 * (k % 2), k / 2);
    LaneIsBlock(rounds, key, 4 * g + 2 * (k % 2) + 1, k / 2);
  }

  lemma IterWordBelow(rounds: Rounds, key: seq<nat>, w: nat)
    requires GoodRounds(rounds) && |key| == 8 && w < 256
    ensures IterWord(rounds, key, w) < W32
  {}

  /** Reseeding from the last four buffer words gives the next iteration's key. */
  lemma ReseedKey(rounds: Rounds, key: seq<nat>, t: nat, seed: seq<nat>)
    requires GoodRounds(rounds) && |key| == 8 && |seed| == 4
    requires forall k :: 0 <= k < 4 ==> seed[k] == ChunkWord(rounds, KeyAt(rounds, key, t), 12, 28 + k)
    ensures SeedKey(seed) == KeyAt(rounds, key, t + 1)
  {
    hide IterWord, ChunkWord, KeyAt, GoodRounds;
    var now, next := KeyAt(rounds, key, t), KeyAt(rounds, key, t + 1);
    forall j | 0 <= j < 8 ensures SeedKey(seed)[j] == next[j] {
      var k := j / 2;
      ChunkIsIteration(rounds, now, 3, 28 + k);
      IterWordBelow(rounds, now, 248 + 2 * k);
      NextKeyWord(rounds, key, t, j);
      assert seed[k] == Pair(IterWord(rounds, now, 248 + 2 * k), IterWord(rounds, now, 249 + 2 * k));
    }
  }

  lemma NextKeyWord(rounds: Rounds, key: seq<nat>, t: nat, j: nat)
    requires GoodRounds(rounds) && |key| == 8 && j < 8
    ensures KeyAt(rounds, key, t + 1)[j] == IterWord(rounds, KeyAt(rounds, key, t), 248 + j)
  {
    hide IterWord, GoodRounds;
  }

  /** Lanes lo to hi hold their initial states, one column each. */
  ghost predicate SetUp(b: array2<nat>, key: seq<nat>, counter: nat, lo: nat, hi: nat)
    requires b.Length0 == 16 && b.Length1 == 4 && hi <= 4 && |key| == 8
    reads b
  {
    forall l, r :: lo <= l < hi && 0 <= r < 16 ==> b[r, l] == Init(key, counter + l)[r]
  }

  /** The first lanes hold their final states. */
  ghost predicate Ready(b: array2<nat>, rounds: Rounds, key: seq<nat>, counter: nat, hi: nat)
    requires b.Length0 == 16 && b.Length1 == 4 && hi <= 4 && |key| == 8 && GoodRounds(rounds)
    reads b
  {
    forall l, r :: 0 <= l < hi && 0 <= r < 16 ==> b[r, l] == LaneWord(rounds, Init(key, counter + l), r)
  }

  /** Writes one column. */
  method SetLane(b: array2<nat>, l: nat, s: seq<nat>)
    requires b.Length0 == 16 && b.Length1 == 4 && l < 4 && |s| == 16
    modifies b
    ensures forall r :: 0 <= r < 16 ==> b[r, l] == s[r]
    ensures forall r, m :: 0 <= r < 16 && 0 <= m < 4 && m != l ==> b[r, m] == old(b[r, m])
  {
    forall r | 0 <= r < 16 { b[r, l] := s[r]; }
  }

  function Column(b: array2<nat>, l: nat): (s: seq<nat>)
    requires b.Length0 == 16 && b.Length1 == 4 && l < 4
    reads b
    ensures |s| == 16 && forall r :: 0 <= r < 16 ==> s[r] == b[r, l]
  {
    seq(16, r requires 0 <= r < 16 reads b => b[r, l])
  }

  function Lane(rounds: Rounds, init: seq<nat>): (s: seq<nat>)
    requires |init| == 16 && |rounds(init)| == 16
    ensures |s| == 16 && forall r :: 0 <= r < 16 ==> s[r] == LaneWord(rounds, init, r)
  {
    seq(16, r requires 0 <= r < 16 => LaneWord(rounds, init, r))
  }

  method SetUpLanes(b: array2<nat>, key: seq<nat>, counter: nat)
    requires b.Length0 == 16 && b.Length1 == 4 && |key| == 8
    modifies b
    ensures SetUp(b, key, counter, 0, 4)
  {
    hide Init;
    var l := 0;
    while l < 4
      invariant 0 <= l <= 4 && SetUp(b, key, counter, 0, l)
    {
      SetLane(b, l, Init(key, counter + l));
      l := l + 1;
    }
  }

  method RunLanes(b: array2<nat>, rounds: Rounds, key: seq<nat>, counter: nat)
    requires b.Length0 == 16 && b.Length1 == 4 && |key| == 8 && GoodRounds(rounds)
    requires SetUp(b, key, counter, 0, 4)
    modifies b
    ensures Ready(b, rounds, key, counter, 4)
  {
    hide Init, LaneWord;
    var l := 0;
    while l < 4
      invariant 0 <= l <= 4 && Ready(b, rounds, key, counter, l) && SetUp(b, key, counter, l, 4)
    {
      var init := Column(b, l);
      assert init == Init(key, counter + l);
      SetLane(b, l, Lane(rounds, init));
      l := l + 1;
    }
  }

  class ChaCha8 {
    const rounds: Rounds
    const seed: array<nat>
    const buf: array<nat>
    var c: nat
    var i: nat
    var n: nat
    /** The first key, and the number of reseeds so far. */
    ghost const key: seq<nat>
    ghost var t: nat

    ghost predicate Shape()
    {
      GoodRounds(rounds) && |key| == 8 && seed.Length == 4 && buf.Length == 32 && seed != buf
    }

    /** The buffer is chunk c / 4 of iteration t; the last chunk keeps four words for the reseed. */
    ghost predicate Valid()
      reads this, seed, buf
    {
      && Shape()
      && (c == 0 || c == 4 || c == 8 || c == 12)
      && n == (if c == 12 then 28 else 32) && i <= n
      && SeedKey(seed[..]) == KeyAt(rounds, key, t)
      && forall k :: 0 <= k < 32 ==> buf[k] == ChunkWord(rounds, KeyAt(rounds, key, t), c, k)
    }

    /** The number of words drawn so far. */
    ghost function Pos(): nat
      reads this
    {
      124 * t + 8 * c + i
    }

    /** gorand.h:27-49. */
    method Block(counter: nat)
      requires Shape() && counter <= 12
      modifies buf
      ensures forall k :: 0 <= k < 32 ==> buf[k] == ChunkWord(rounds, SeedKey(seed[..]), counter, k)
    {
      hide LaneWord, Init, SeedKey, GoodRounds;
      var b := new nat[16, 4];
      ghost var now := SeedKey(seed[..]);
      SetUpLanes(b, SeedKey(seed[..]), counter);
      RunLanes(b, rounds, SeedKey(seed[..]), counter);
      var k := 0;
      while k < 32
        invariant 0 <= k <= 32
        invariant seed[..] == old(seed[..]) && Ready(b, rounds, now, counter, 4)
        invariant forall j :: 0 <= j < k ==> buf[j] == ChunkWord(rounds, now, counter, j)
      {
        BufferWord(k);
        buf[k] := Pair(b[2 * k / 4, 2 * k % 4], b[(2 * k + 1) / 4, (2 * k + 1) % 4]);
        k := k + 1;
      }
    }

    /** gorand.h:51-59. */
    constructor (rounds: Rounds, bytes: seq<nat>)
      requires GoodRounds(rounds) && |bytes| == 32 && forall j :: 0 <= j < 32 ==> bytes[j] < 256
      ensures Valid() && fresh(seed) && fresh(buf)
      ensures this.rounds == rounds && key == WordsOf(bytes) && Pos() == 0
    {
      this.rounds := rounds;
      key := WordsOf(bytes);
      t := 0;
      seed := new nat[4];
      buf := new nat[32];
      c, i, n := 0, 0, 32;
      new;
      LoadSeed(bytes);
      Block(0);
    }

    /** gorand.h:52-56. */
    method LoadSeed(bytes: seq<nat>)
      requires Shape() && |bytes| == 32 && key == WordsOf(bytes) && forall j :: 0 <= j < 32 ==> bytes[j] < 256
      modifies seed
      ensures SeedKey(seed[..]) == key
    {
      var k := 0;
      while k < 4
        invariant 0 <= k <= 4
        invariant forall m :: 0 <= m < k ==> seed[m] == Le(bytes[8 * m..8 * m + 8])
      {
        var v, j := 0, 8;
        while j > 0
          invariant 0 <= j <= 8
          invariant v == Le(bytes[8 * k + j..8 * k + 8])
        {
          j := j - 1;
          assert bytes[8 * k + j..8 * k + 8] == [bytes[8 * k + j]] + bytes[8 * k + j + 1..8 * k + 8];
          v := v * 256 + bytes[8 * k + j];
        }
        seed[k] := v;
        k := k + 1;
      }
      SeedWords(seed[..], bytes);
    }

    /** gorand.h:61-70. */
    method Refill()
      requires Valid() && i == n
      modifies this, buf, seed
      ensures Valid() && i < n && Pos() == old(Pos())
    {
      hide ChunkWord, KeyAt, SeedKey, GoodRounds;
      c := c + 4;
      if c == 16 {
        Reseed();
        c := 0;
      }
      Block(c);
      i := 0;
      n := if c == 16 - 4 then 32 - 4 else 32;
    }

    method Reseed()
      requires Shape()
      requires forall k :: 0 <= k < 32 ==> buf[k] == ChunkWord(rounds, KeyAt(rounds, key, t), 12, k)
      modifies `t, seed
      ensures t == old(t) + 1 && SeedKey(seed[..]) == KeyAt(rounds, key, t)
    {
      hide ChunkWord, KeyAt, SeedKey, GoodRounds;
      var k := 0;
      while k < 4
        invariant 0 <= k <= 4 && t == old(t)
        invariant forall j :: 0 <= j < k ==> seed[j] == buf[28 + j]
        modifies seed
      {
        seed[k] := buf[32 - 4 + k];
        k := k + 1;
      }
      ReseedKey(rounds, key, t, seed[..]);
      t := t + 1;
    }

    /** gorand.h:73-78. Every call returns the next word of the C2SP stream. */
    method Uint64() returns (x: nat)
      requires Valid()
      modifies this, buf, seed
      ensures Valid() && Pos() == old(Pos()) + 1 && x == StreamWord(rounds, key, old(Pos()))
      ensures x < W32 * W32
    {
      hide ChunkWord, KeyAt, SeedKey, GoodRounds, StreamWord;
      while i >= n
        invariant Valid() && Pos() == old(Pos())
        decreases if i < n then 0 else 1
      {
        Refill();
      }
      BufferStream(rounds, key, t, c / 4, i);
      x := buf[i];
      i := i + 1;
    }
  }

  /** Little-endian bytes. */
  function Le(bs: seq<nat>): nat
    decreases |bs|
  {
    if bs == [] then 0 else bs[0] + 256 * Le(bs[1..])
  }

  /** The eight 32-bit words of a 32-byte seed. */
  function WordsOf(bytes: seq<nat>): (k: seq<nat>)
    requires |bytes| == 32
    ensures |k| == 8
  {
    seq(8, j requires 0 <= j < 8 => Le(bytes[4 * j..4 * j + 4]))
  }

  lemma LeEight(bs: seq<nat>)
    requires |bs| == 8 && forall j :: 0 <= j < 8 ==> bs[j] < 256
    ensures Le(bs) % W32 == Le(bs[..4]) && Le(bs) / W32 == Le(bs[4..])
  {
    hide Le, Pow256;
    LeFour(bs[..4]); LeSplit(bs, 4);
    FourBytes();
    DivModUnique(Le(bs), W32, Le(bs[4..]), Le(bs[..4]));
  }

  lemma FourBytes()
    ensures Pow256(1) == 256 && Pow256(4) == W32
  {
    assert Pow256(2) == 0x1_0000;
  }

  lemma LeFour(bs: seq<nat>)
    requires |bs| == 4 && forall j :: 0 <= j < 4 ==> bs[j] < 256
    ensures Le(bs) < W32
  {
    assert Le(bs) == bs[0] + 256 * Le(bs[1..]);
    assert Le(bs[1..]) == bs[1] + 256 * Le(bs[2..]) by { assert bs[1..][1..] == bs[2..]; }
    assert Le(bs[2..]) == bs[2] + 256 * Le(bs[3..]) by { assert bs[2..][1..] == bs[3..]; }
    assert Le(bs[3..]) == bs[3] + 256 * Le(bs[4..]) by { assert bs[3..][1..] == bs[4..]; }
    assert bs[4..] == [];
  }

  lemma Scaled(p: int, v: int)
    ensures 256 * (p * v) == (256 * p) * v
  {}

  lemma {:induction false} LeSplit(bs: seq<nat>, n: nat)
    requires n <= |bs|
    ensures Le(bs) == Le(bs[..n]) + Pow256(n) * Le(bs[n..])
    decreases n
  {
    if n == 0 {
      assert bs[0..] == bs;
    } else {
      LeSplit(bs[1..], n - 1);
      assert bs[..n][1..] == bs[1..][..n - 1] && bs[1..][n - 1..] == bs[n..];
      Scaled(Pow256(n - 1), Le(bs[n..]));
    }
  }

  lemma SeedWords(seed: seq<nat>, bytes: seq<nat>)
    requires |seed| == 4 && |bytes| == 32 && forall j :: 0 <= j < 32 ==> bytes[j] < 256
    requires forall m :: 0 <= m < 4 ==> seed[m] == Le(bytes[8 * m..8 * m + 8])
    ensures SeedKey(seed) == WordsOf(bytes)
  {
    hide Le;
    forall j | 0 <= j < 8 ensures SeedKey(seed)[j] == WordsOf(bytes)[j] {
      var m := j / 2;
      HalfBytes(bytes, m);
      assert j == 2 * m || j == 2 * m + 1;
    }
  }

  /** Eight bytes are two words. */
  lemma HalfBytes(bytes: seq<nat>, m: nat)
    requires |bytes| == 32 && m < 4 && forall j :: 0 <= j < 32 ==> bytes[j] < 256
    ensures var x := Le(bytes[8 * m..8 * m + 8]);
            x % W32 == Le(bytes[8 * m..8 * m + 4]) && x / W32 == Le(bytes[8 * m + 4..8 * m + 8])
  {
    hide Le;
    var bs := bytes[8 * m..8 * m + 8];
    LeEight(bs);
    assert bs[..4] == bytes[8 * m..8 * m + 4] && bs[4..] == bytes[8 * m + 4..8 * m + 8];
  }

  lemma BufferWord(k: nat)
    requires k < 32
    ensures 2 * k / 4 == k / 2 && 2 * k % 4 == 2 * (k % 2)
    ensures (2 * k + 1) / 4 == k / 2 && (2 * k + 1) % 4 == 2 * (k % 2) + 1
  {}

  lemma StreamAt(rounds: Rounds, key: seq<nat>, t: nat, w: nat)
    requires GoodRounds(rounds) && |key| == 8 && w < 124
    ensures StreamWord(rounds, key, 124 * t + w) ==
            Pair(IterWord(rounds, KeyAt(rounds, key, t), 2 * w), IterWord(rounds, KeyAt(rounds, key, t), 2 * w + 1))
  {
    hide IterWord, KeyAt, GoodRounds, Pair;
    DivModUnique(124 * t + w, 124, t, w);
  }

  lemma PairBelow(lo: nat, hi: nat)
    requires lo < W32 && hi < W32
    ensures Pair(lo, hi) < W32 * W32
  {}

  lemma BufferStream(rounds: Rounds, key: seq<nat>, t: nat, g: nat, i: nat)
    requires GoodRounds(rounds) && |key| == 8 && g < 4 && i < (if g == 3 then 28 else 32)
    ensures ChunkWord(rounds, KeyAt(rounds, key, t), 4 * g, i) == StreamWord(rounds, key, 124 * t + 32 * g + i)
    ensures StreamWord(rounds, key, 124 * t + 32 * g + i) < W32 * W32
  {
    hide IterWord, KeyAt, ChunkWord, StreamWord, Pair, GoodRounds;
    var k, w := KeyAt(rounds, key, t), 32 * g + i;
    ChunkIsIteration(rounds, k, g, i);
    assert 64 * g + 2 * i == 2 * w;
    StreamAt(rounds, key, t, w);
    IterWordBelow(rounds, k, 2 * w); IterWordBelow(rounds, k, 2 * w + 1);
    PairBelow(IterWord(rounds, k, 2 * w), IterWord(rounds, k, 2 * w + 1));
  }

  // ---- what the definitions say, in numbers ----

  lemma LeIs(b: nat, bs: seq<nat>)
    ensures Le([]) == 0 && Le([b] + bs) == b + 256 * Le(bs)
  {}

  lemma {:induction false} ByteIs(x: nat, j: nat)
    ensures ByteOf(x, j) == x / Pow256(j) % 256
    decreases j
  {
    hide Pow256;
    PowersOf256(j);
    if j > 0 {
      ByteIs(x / 256, j - 1);
      PowersOf256(j - 1);
      DivDiv(x, 256, Pow256(j - 1));
    }
  }

  /** The n bytes of x below 256^n, least significant first. */
  lemma {:induction false} BytesOf(x: nat, n: nat)
    requires x < Pow256(n)
    ensures Le(seq(n, j requires 0 <= j < n => ByteOf(x, j))) == x
    decreases n
  {
    hide Pow256;
    PowersOf256(0);
    if n > 0 {
      PowersOf256(n - 1);
      DivBelow(x, Pow256(n - 1), 256);
      BytesOf(x / 256, n - 1);
      var bs := seq(n, j requires 0 <= j < n => ByteOf(x, j));
      assert bs[1..] == seq(n - 1, j requires 0 <= j < n - 1 => ByteOf(x / 256, j));
    }
  }

  /** The bytes of a 64-bit word, least significant first, have its value. */
  lemma WordBytes(x: nat, bs: seq<nat>)
    requires x < W32 * W32 && |bs| == 8 && forall j :: 0 <= j < 8 ==> bs[j] == ByteOf(x, j)
    ensures Le(bs) == x && forall j :: 0 <= j < 8 ==> bs[j] < 256
  {
    hide ByteOf, Pow256, Le;
    EightBytes();
    BytesOf(x, 8);
    assert bs == seq(8, j requires 0 <= j < 8 => ByteOf(x, j));
    forall j | 0 <= j < 8 ensures bs[j] < 256 { ByteIs(x, j); }
  }

  lemma EightBytes()
    ensures Pow256(8) == W32 * W32
  {
    assert Pow256(4) == W32;
  }

  /** The constants spell "expand 32-byte k". */
  lemma ConstantsSpell()
    ensures CONSTANTS == [Le(['e' as nat, 'x' as nat, 'p' as nat, 'a' as nat]),
                          Le(['n' as nat, 'd' as nat, ' ' as nat, '3' as nat]),
                          Le(['2' as nat, '-' as nat, 'b' as nat, 'y' as nat]),
                          Le(['t' as nat, 'e' as nat, ' ' as nat, 'k' as nat])]
  {
    LeFourIs('e' as nat, 'x' as nat, 'p' as nat, 'a' as nat);
    LeFourIs('n' as nat, 'd' as nat, ' ' as nat, '3' as nat);
    LeFourIs('2' as nat, '-' as nat, 'b' as nat, 'y' as nat);
    LeFourIs('t' as nat, 'e' as nat, ' ' as nat, 'k' as nat);
  }

  lemma LeFourIs(a: nat, b: nat, c: nat, d: nat)
    ensures Le([a, b, c, d]) == a + 256 * (b + 256 * (c + 256 * d))
  {
    assert [a, b, c, d] == [a] + ([b] + ([c] + ([d] + [])));
    LeIs(d, []); LeIs(c, [d] + []); LeIs(b, [c] + ([d] + [])); LeIs(a, [b] + ([c] + ([d] + [])));
  }

  /** The words of block i: the rounds' own, with the key words added to the words in their place. */
  lemma BlockIs(rounds: Rounds, key: seq<nat>, i: nat, r: nat)
    requires GoodRounds(rounds) && |key| == 8 && i < 16 && r < 16
    ensures var x := rounds(CONSTANTS + key + [i, 0, 0, 0])[r];
            BlockWord(rounds, key, i, r) == if 4 <= r < 12 then (x + key[r - 4]) % 0x1_0000_0000 else x
  {
    hide BlockWord, Minus;
    LaneIsBlock(rounds, key, i, r);
  }

  /** Group g of four blocks: word r of its block l comes out in place 4 r + l. */
  lemma Interleaved(rounds: Rounds, key: seq<nat>, g: nat, l: nat, r: nat)
    requires GoodRounds(rounds) && |key| == 8 && g < 4 && l < 4 && r < 16
    ensures IterWord(rounds, key, 64 * g + 4 * r + l) == BlockWord(rounds, key, 4 * g + l, r)
  {
    hide BlockWord, GoodRounds;
    DivModUnique(64 * g + 4 * r + l, 64, g, 4 * r + l);
    DivModUnique(4 * r + l, 4, r, l);
    DivModUnique(64 * g + 4 * r + l, 4, 16 * g + r, l);
  }

  /** 124 outputs from each iteration, the low word of each pair first; the words after them are the
      next key. */
  lemma StreamIs(rounds: Rounds, key: seq<nat>, t: nat, w: nat, j: nat)
    requires GoodRounds(rounds) && |key| == 8 && w < 124 && j < 8
    ensures var k := KeyAt(rounds, key, t);
            StreamWord(rounds, key, 124 * t + w) ==
            IterWord(rounds, k, 2 * w) + 0x1_0000_0000 * IterWord(rounds, k, 2 * w + 1)
    ensures KeyAt(rounds, key, 0) == key
    ensures KeyAt(rounds, key, t + 1)[j] == IterWord(rounds, KeyAt(rounds, key, t), 248 + j)
  {
    hide IterWord, GoodRounds, StreamWord;
    StreamAt(rounds, key, t, w);
    NextKeyWord(rounds, key, t, j);
  }

  lemma StreamBelow(rounds: Rounds, key: seq<nat>, p: nat)
    requires GoodRounds(rounds) && |key| == 8
    ensures StreamWord(rounds, key, p) < W32 * W32
  {
    hide IterWord, KeyAt, StreamWord, Pair, GoodRounds;
    var t, w := p / 124, p % 124;
    assert p == 124 * t + w;
    var k := KeyAt(rounds, key, t);
    StreamAt(rounds, key, t, w);
    IterWordBelow(rounds, k, 2 * w); IterWordBelow(rounds, k, 2 * w + 1);
    PairBelow(IterWord(rounds, k, 2 * w), IterWord(rounds, k, 2 * w + 1));
  }
}
