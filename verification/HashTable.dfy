/** The open-addressing hash table of benchmarks/native/hash_table.c: buckets of a stored key
    (user key + 1, 0 = empty) and a value, linear probing, growth at load 1/2, backward-shift
    deletion. The table refines the finite map `contents`. */
module HashTable {
  import opened Arith
  import opened Probing

  datatype Bucket = Bucket(key: nat, val: nat)

  const NONE: nat := 0xFFFF_FFFF
  const MAX_ENTRIES: nat := 0x4000_0000

  /** hash_table.c:50-52, Fibonacci hashing of a uint32. */
  function Fibonacci(k: nat, bits: nat): nat
    requires bits <= 32
  {
    Shr((k * 0x9E37_79B1) % 0x1_0000_0000, 32 - bits)
  }

  /** A family of home functions, one for each table size. */
  ghost predicate IsHome(home: (nat, nat) -> nat)
  {
    forall k, bits :: home(k, bits) < Pow2(bits)
  }

  lemma FibonacciInRange(k: nat, bits: nat)
    requires bits <= 32
    ensures Fibonacci(k, bits) < Pow2(bits)
  {
    Pow2Mono(bits, 32);
    Pow2Values();
    DivBelow((k * 0x9E37_79B1) % 0x1_0000_0000, Pow2(bits), Pow2(32 - bits));
  }

  /** The C code's hash is one of the home functions the results below are about. */
  function FibonacciHome(): (nat, nat) -> nat {
    (k: nat, bits: nat) => if bits <= 32 then Fibonacci(k, bits) else 0
  }

  lemma FibonacciIsHome()
    ensures IsHome(FibonacciHome())
  {
    forall k: nat, bits: nat ensures FibonacciHome()(k, bits) < Pow2(bits) {
      if bits <= 32 { FibonacciInRange(k, bits); }
    }
  }

  function CellOf(b: Bucket): Cell {
    if b.key == 0 then Free else Used(b.key - 1, b.val)
  }

  function Cells(b: seq<Bucket>): (c: seq<Cell>)
    ensures |c| == |b|
    ensures forall x :: 0 <= x < |b| ==> c[x] == CellOf(b[x])
  {
    seq(|b|, x requires 0 <= x < |b| => CellOf(b[x]))
  }

  lemma CellsUpdate(b: seq<Bucket>, i: nat, v: Bucket)
    requires i < |b|
    ensures Cells(b[i := v]) == Cells(b)[i := CellOf(v)]
  {}

  /** The home of a user key: the C code hashes the stored key. */
  function HomeAt(home: (nat, nat) -> nat, bits: nat): nat -> nat {
    (k: nat) => home(k + 1, bits)
  }

  ghost predicate Represents(b: seq<Bucket>, home: (nat, nat) -> nat, bits: nat, m: map<nat, nat>) {
    && IsHome(home)
    && |b| == Pow2(bits)
    && Table(Cells(b), HomeAt(home, bits), m)
  }

  /** Stored keys k = user key + 1 and a table that is not full: what every probe loop needs. */
  lemma ProbeTarget(b: seq<Bucket>, home: (nat, nat) -> nat, bits: nat, m: map<nat, nat>) returns (e: nat)
    requires Represents(b, home, bits, m) && |m| < |b|
    ensures e < |b| && b[e].key == 0
  {
    HasFree(Cells(b), m);
    e :| 0 <= e < |b| && Cells(b)[e].Free?;
  }

  /** hash_table.c:61-67. */
  method PutRaw(b: array<Bucket>, bits: nat, k: nat, v: nat,
                home: (nat, nat) -> nat, ghost m: map<nat, nat>)
    requires bits <= 31 && 0 < k && k - 1 !in m && |m| < b.Length
    requires Represents(b[..], home, bits, m)
    modifies b
    ensures Represents(b[..], home, bits, m[k - 1 := v])
  {
    hide Table, Binds, Probed, Dist, Next, Pow2, Masked;
    var i: nat := home(k, bits);
    ProbeStart(Cells(b[..]), i, k - 1);
    ghost var e := ProbeTarget(b[..], home, bits, m);
    while b[i].key != 0
      invariant i < b.Length && b[..] == old(b[..])
      invariant Probed(Cells(b[..]), HomeAt(home, bits)(k - 1), k - 1, i)
      decreases Dist(b.Length, i, e)
    {
      ProbeEndIfHit(Cells(b[..]), HomeAt(home, bits), m, k - 1, i);
      ProbeStep(Cells(b[..]), HomeAt(home, bits)(k - 1), k - 1, i, e);
      MaskedNext(bits, i);
      i := Masked(i + 1, bits);
    }
    PutFree(Cells(b[..]), HomeAt(home, bits), m, k - 1, v, i);
    CellsUpdate(b[..], i, Bucket(k, v));
    b[i] := Bucket(k, v);
    assert b[..] == old(b[..])[i := Bucket(k, v)];
  }

  lemma ProbeEndIfHit(c: seq<Cell>, home: nat -> nat, m: map<nat, nat>, k: nat, i: nat)
    requires Table(c, home, m) && i < |c| && k !in m
    ensures c[i].Used? ==> c[i].key != k
  {}

  /** Probing.HoleOpens, DeleteScans and DeleteEnds read off the buckets. */
  lemma StartBuckets(b: seq<Bucket>, home: (nat, nat) -> nat, bits: nat, m: map<nat, nat>, i: nat)
    requires Represents(b, home, bits, m) && i < |b| && b[i].key != 0
    ensures IsHome(home) && |b| == Pow2(bits) && b[i].key - 1 in m
    ensures Holed(Cells(b), HomeAt(home, bits), i, i, m - {b[i].key - 1})
  {
    hide Holed, Table, Pow2;
    HoleOpens(Cells(b), HomeAt(home, bits), m, i);
  }

  lemma ScanBuckets(b: seq<Bucket>, home: (nat, nat) -> nat, bits: nat, i: nat, j: nat, m: map<nat, nat>, e: nat)
    requires |b| == Pow2(bits) && bits <= 32 && j < |b| && e < |b| && b[e].key == 0
    requires Holed(Cells(b), HomeAt(home, bits), i, j, m)
    requires b[Masked(j + 1, bits)].key != 0
    ensures var j' := Masked(j + 1, bits);
            && i < |b| && j' != i && e != i
            && Dist(|b|, j', e) < Dist(|b|, j, e)
            && if Masked(j' - home(b[j'].key, bits), bits) >= Masked(j' - i, bits)
               then Holed(Cells(b[i := b[j']]), HomeAt(home, bits), j', j', m)
               else Holed(Cells(b), HomeAt(home, bits), i, j', m)
  {
    hide Holed, Dist, Pow2, Masked;
    DeleteScans(Cells(b), HomeAt(home, bits), bits, i, j, m, e);
    CellsUpdate(b, i, b[Masked(j + 1, bits)]);
  }

  lemma EndBuckets(b: seq<Bucket>, home: (nat, nat) -> nat, bits: nat, i: nat, j: nat, m: map<nat, nat>)
    requires |b| == Pow2(bits) && bits <= 32 && j < |b|
    requires IsHome(home) && Holed(Cells(b), HomeAt(home, bits), i, j, m)
    requires b[Masked(j + 1, bits)].key == 0
    ensures i < |b| && Represents(b[i := Bucket(0, 0)], home, bits, m)
  {
    hide Holed, Table, Pow2, Masked;
    DeleteEnds(Cells(b), HomeAt(home, bits), bits, i, j, m);
    CellsUpdate(b, i, Bucket(0, 0));
  }

  /** hash_table.c:72-76: every bucket in use, put into an empty table of the next size. */
  method MoveAll(b: array<Bucket>, nw: array<Bucket>, bits: nat, home: (nat, nat) -> nat, ghost m: map<nat, nat>)
    requires bits < 31 && b != nw && nw.Length == Pow2(bits + 1) == 2 * b.Length && |m| <= b.Length
    requires Represents(b[..], home, bits, m) && Represents(nw[..], home, bits + 1, map[])
    modifies nw
    ensures Represents(nw[..], home, bits + 1, m)
  {
    hide Represents, Moved, Cells, CellOf, Pow2;
    ghost var bs := b[..];
    NothingMoved(Cells(bs), m);
    ghost var done: map<nat, nat> := map[];
    for j := 0 to b.Length
      invariant b[..] == bs && Moved(Cells(bs), m, j, done) && |done| <= |m|
      invariant Represents(nw[..], home, bits + 1, done)
    {
      GrowSteps(bs, home, bits, m, j, done);
      if b[j].key != 0 {
        PutRaw(nw, bits + 1, b[j].key, b[j].val, home, done);
        done := done[b[j].key - 1 := b[j].val];
      }
    }
    GrowEnds(bs, home, bits, m, done);
  }

  /** The key of a bucket in use is bound. */
  ghost function KeyAt(b: seq<Bucket>, home: (nat, nat) -> nat, bits: nat, m: map<nat, nat>, i: nat): (k: nat)
    requires Represents(b, home, bits, m) && i < |b| && b[i].key != 0
    ensures k == b[i].key - 1 && k in m
  {
    assert Cells(b)[i].Used?;
    b[i].key - 1
  }

  /** hash_table.c:102-116: the entries after bucket `at` close up over it. */
  method ShiftBack(b: array<Bucket>, bits: nat, at: nat, home: (nat, nat) -> nat, ghost m: map<nat, nat>)
    requires bits <= 31 && |m| < b.Length && Represents(b[..], home, bits, m)
    requires at < b.Length && b[at].key != 0
    modifies b
    ensures Represents(b[..], home, bits, m - {old(b[at].key) - 1})
  {
    hide Represents, HomeAt, Cells, Holed, Dist, Pow2, Masked;
    ghost var hf, m' := HomeAt(home, bits), m - {b[at].key - 1};
    ghost var e := ProbeTarget(b[..], home, bits, m);
    StartBuckets(b[..], home, bits, m, at);
    var i: nat, j: nat := at, at;
    while true
      invariant i < b.Length && j < b.Length && b[e].key == 0
      invariant Holed(Cells(b[..]), hf, i, j, m')
      decreases Dist(b.Length, j, e)
    {
      ghost var bs, j0 := b[..], j;
      j := Masked(j + 1, bits);
      if b[j].key == 0 {
        EndBuckets(bs, home, bits, i, j0, m');
        break;
      }
      ScanBuckets(bs, home, bits, i, j0, m', e);
      var h := home(b[j].key, bits);
      if Masked(j - h, bits) >= Masked(j - i, bits) {
        b[i] := b[j];
        assert b[..] == bs[i := bs[j]];
        i := j;
      }
    }
    ghost var bs := b[..];
    b[i] := b[i].(key := 0);
    b[i] := b[i].(val := 0);
    assert b[..] == bs[i := Bucket(0, 0)];
  }

  /** Writing the bucket where the probe for the key ended. */
  lemma StoreBucket(b: seq<Bucket>, home: (nat, nat) -> nat, bits: nat, m: map<nat, nat>, k: nat, v: nat, i: nat)
    requires Represents(b, home, bits, m) && i < |b|
    requires Probed(Cells(b), HomeAt(home, bits)(k), k, i) && (b[i].key == 0 || b[i].key == k + 1)
    ensures Represents(b[i := Bucket(k + 1, v)], home, bits, m[k := v])
    ensures |m[k := v]| == if b[i].key == 0 then |m| + 1 else |m|
  {
    hide Table, Probed, Pow2, IsHome;
    Store(Cells(b), HomeAt(home, bits), m, k, v, i);
    CellsUpdate(b, i, Bucket(k + 1, v));
  }

  method WriteBucket(b: array<Bucket>, i: nat, k: nat, v: nat)
    requires i < b.Length && (b[i].key == 0 || b[i].key == k)
    modifies b
    ensures b[..] == old(b[..])[i := Bucket(k, v)]
  {
    if b[i].key == 0 { b[i] := b[i].(key := k); }
    b[i] := b[i].(val := v);
  }

  lemma Pow2Next(bits: nat)
    ensures Pow2(bits + 1) == 2 * Pow2(bits)
  {}

  /** A table that must grow for at most MAX_ENTRIES entries has fewer than 2^31 buckets. */
  lemma LoadBound(bits: nat, n: nat)
    requires bits <= 31 && n < MAX_ENTRIES && 2 * (n + 1) > Pow2(bits)
    ensures bits < 31 && Pow2(bits + 1) == 2 * Pow2(bits)
  {
    Pow2Values();
  }

  class Table32 {
    var n: nat
    var bits: nat
    var b: array<Bucket>
    const home: (nat, nat) -> nat
    ghost var contents: map<nat, nat>

    ghost predicate Valid()
      reads this, b
    {
      && 1 <= bits <= 31
      && b.Length == Pow2(bits)
      && Represents(b[..], home, bits, contents)
      && n == |contents|
      && 2 * n <= Pow2(bits)
    }

    /** hash_table.c:54-59. */
    constructor (home: (nat, nat) -> nat)
      requires IsHome(home)
      ensures Valid() && fresh(b) && contents == map[] && this.home == home
    {
      n := 0;
      bits := 1;
      b := new Bucket[2](_ => Bucket(0, 0));
      this.home := home;
      contents := map[];
      new;
      hide Table;
      assert Pow2(1) == 2;
      EmptyTable(Cells(b[..]), HomeAt(home, bits));
    }

    /** hash_table.c:69-77. */
    method Grow()
      requires Valid() && bits < 31
      modifies this`b, this`bits
      ensures Valid() && fresh(b) && bits == old(bits) + 1
    {
      hide Represents, Pow2;
      Pow2Next(bits);
      var nw := new Bucket[2 * Pow2(bits)](_ => Bucket(0, 0));
      EmptyBuckets(nw[..], home, bits + 1) by { RepresentsBinds(b[..], home, bits, contents); }
      MoveAll(b, nw, bits, home, contents);
      b := nw;
      bits := bits + 1;
    }

    /** hash_table.c:80-85: the bucket holding stored key k, or the empty bucket ending its probe. */
    method Find(k: nat) returns (i: nat)
      requires Valid() && 0 < k
      ensures i < b.Length
      ensures Probed(Cells(b[..]), HomeAt(home, bits)(k - 1), k - 1, i)
      ensures b[i].key == 0 || b[i].key == k
      ensures b[i].key != 0 <==> k - 1 in contents
      ensures b[i].key != 0 ==> b[i].val == contents[k - 1]
    {
      hide Table, Binds, Probed, Dist, Next, Pow2, Masked;
      i := home(k, bits);
      ProbeStart(Cells(b[..]), i, k - 1);
      ghost var e := ProbeTarget(b[..], home, bits, contents);
      while b[i].key != 0 && b[i].key != k
        invariant i < b.Length
        invariant Probed(Cells(b[..]), HomeAt(home, bits)(k - 1), k - 1, i)
        decreases Dist(b.Length, i, e)
      {
        ProbeStep(Cells(b[..]), HomeAt(home, bits)(k - 1), k - 1, i, e);
        MaskedNext(bits, i);
        i := Masked(i + 1, bits);
      }
      ProbeEnd(Cells(b[..]), HomeAt(home, bits), contents, k - 1, i);
    }

    /** hash_table.c:87-93. The stored key must not wrap to the empty mark; the table may grow
        even when the call only replaces a value. */
    method Set(key: nat, v: nat)
      requires Valid() && key < 0xFFFF_FFFF && n + 1 <= MAX_ENTRIES
      modifies this, b
      ensures Valid() && contents == old(contents)[key := v]
      ensures b == old(b) || fresh(b)
    {
      hide Represents, Probed, Pow2, Cells, HomeAt;
      var k := key + 1;
      if 2 * (n + 1) > Pow2(bits) {
        LoadBound(bits, n);
        Grow();
      }
      var i := Find(k);
      StoreBucket(b[..], home, bits, contents, key, v, i);
      if b[i].key == 0 { n := n + 1; }
      WriteBucket(b, i, k, v);
      contents := contents[key := v];
    }

    /** hash_table.c:95-99. */
    method Get(key: nat) returns (v: nat, found: bool)
      requires Valid() && key < 0xFFFF_FFFF
      ensures found <==> key in contents
      ensures v == if key in contents then contents[key] else 0xFFFF_FFFF
    {
      var i := Find(key + 1);
      found := b[i].key != 0;
      v := if found then b[i].val else NONE;
    }

    /** hash_table.c:102-117. */
    method DelAt(at: nat)
      requires Valid() && at < b.Length && b[at].key != 0
      modifies this`n, this`contents, b
      ensures Valid() && contents == old(contents) - {old(b[at].key) - 1}
    {
      hide Represents, HomeAt, Cells, Pow2;
      ghost var m := contents - {b[at].key - 1};
      MapSizeLess(contents, KeyAt(b[..], home, bits, contents, at));
      ShiftBack(b, bits, at, home, contents);
      n := n - 1;
      contents := m;
    }

    /** hash_table.c:119-126. */
    method Pop(key: nat) returns (v: nat, found: bool)
      requires Valid() && key < 0xFFFF_FFFF
      modifies this`n, this`contents, b
      ensures Valid() && contents == old(contents) - {key}
      ensures found <==> key in old(contents)
      ensures v == if key in old(contents) then old(contents)[key] else 0
    {
      hide Table, Probed, Represents, Dist, Pow2, Cells;
      var i := Find(key + 1);
      found := b[i].key != 0;
      if !found {
        v := 0;
        MapMinusAbsent(contents, key);
        return;
      }
      v := b[i].val;
      DelAt(i);
    }
  }

  // ---- growth: the entries of the first j cells ----

  ghost predicate Moved(c: seq<Cell>, m: map<nat, nat>, j: nat, done: map<nat, nat>)
  {
    && j <= |c|
    && (forall k :: k in done ==> k in m && done[k] == m[k])
    && (forall k :: k in done ==> exists x :: 0 <= x < j && c[x].Used? && c[x].key == k)
    && (forall x :: 0 <= x < j && c[x].Used? ==> c[x].key in done)
  }

  lemma NothingMoved(c: seq<Cell>, m: map<nat, nat>)
    ensures Moved(c, m, 0, map[])
  {}

  lemma EmptyBuckets(b: seq<Bucket>, home: (nat, nat) -> nat, bits: nat)
    requires IsHome(home) && |b| == Pow2(bits) && forall x :: 0 <= x < |b| ==> b[x].key == 0
    ensures Represents(b, home, bits, map[])
  {
    hide Pow2;
    EmptyTable(Cells(b), HomeAt(home, bits));
  }

  lemma RepresentsBinds(b: seq<Bucket>, home: (nat, nat) -> nat, bits: nat, m: map<nat, nat>)
    requires Represents(b, home, bits, m)
    ensures IsHome(home) && Binds(Cells(b), -1, m)
  {
    hide Binds, NoGap;
  }

  lemma GrowSteps(b: seq<Bucket>, home: (nat, nat) -> nat, bits: nat, m: map<nat, nat>, j: nat, done: map<nat, nat>)
    requires Represents(b, home, bits, m) && j < |b| && Moved(Cells(b), m, j, done)
    ensures b[j].key == 0 ==> Moved(Cells(b), m, j + 1, done)
    ensures b[j].key != 0 ==>
              && b[j].key - 1 !in done
              && |done[b[j].key - 1 := b[j].val]| == |done| + 1 <= |m|
              && Moved(Cells(b), m, j + 1, done[b[j].key - 1 := b[j].val])
  {
    hide Moved, Binds, Represents;
    if b[j].key == 0 {
      MovedNone(Cells(b), m, j, done);
    } else {
      RepresentsBinds(b, home, bits, m);
      MovedFresh(Cells(b), m, j, done);
      assert done[b[j].key - 1 := b[j].val].Keys == done.Keys + {b[j].key - 1};
    }
  }

  lemma MovedNone(c: seq<Cell>, m: map<nat, nat>, j: nat, done: map<nat, nat>)
    requires j < |c| && c[j].Free? && Moved(c, m, j, done)
    ensures Moved(c, m, j + 1, done)
  {}

  lemma GrowEnds(b: seq<Bucket>, home: (nat, nat) -> nat, bits: nat, m: map<nat, nat>, done: map<nat, nat>)
    requires Represents(b, home, bits, m) && Moved(Cells(b), m, |b|, done)
    ensures done == m
  {}

  lemma MovedFresh(c: seq<Cell>, m: map<nat, nat>, j: nat, done: map<nat, nat>)
    requires Binds(c, -1, m) && j < |c| && c[j].Used? && Moved(c, m, j, done)
    ensures c[j].key !in done
    ensures Moved(c, m, j + 1, done[c[j].key := c[j].val])
    ensures |done| < |m|
  {
    NotMoved(c, m, j, done);
    MovedOne(c, m, j, done);
    assert done.Keys <= m.Keys - {c[j].key};
    SubsetSize(done.Keys, m.Keys - {c[j].key});
  }

  lemma NotMoved(c: seq<Cell>, m: map<nat, nat>, j: nat, done: map<nat, nat>)
    requires Binds(c, -1, m) && j < |c| && c[j].Used? && Moved(c, m, j, done)
    ensures c[j].key !in done && c[j].key in m && m[c[j].key] == c[j].val
  {}

  lemma MovedOne(c: seq<Cell>, m: map<nat, nat>, j: nat, done: map<nat, nat>)
    requires j < |c| && c[j].Used? && Moved(c, m, j, done) && c[j].key in m && m[c[j].key] == c[j].val
    ensures Moved(c, m, j + 1, done[c[j].key := c[j].val])
  {
    var done' := done[c[j].key := c[j].val];
    forall k | k in done' ensures exists x :: 0 <= x < j + 1 && c[x].Used? && c[x].key == k {
      if k != c[j].key { var x :| 0 <= x < j && c[x].Used? && c[x].key == k; }
    }
  }
}
