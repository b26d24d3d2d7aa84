/** The cache of benchmarks/native/lru.c in its own form: a slot arena (key, val, dl), the recency
    list threaded through prev and next, the free chain threaded through the same next, and an
    open-addressing table from key to slot. Every operation refines the sequence of LruModel. */
module Lru {
  import opened Arith
  import opened Probing
  import opened HashTable
  import opened LruModel
  import opened Sequences
  import opened Threads

  datatype Entry32 = Entry32(key: nat, slot: nat)

  // ---- the lookup table ----

  function SlotCell(b: Entry32): Cell {
    if b.slot == NIL then Free else Used(b.key, b.slot)
  }

  function SlotCells(t: seq<Entry32>): (c: seq<Cell>)
    ensures |c| == |t|
    ensures forall x :: 0 <= x < |t| ==> c[x] == SlotCell(t[x])
  {
    seq(|t|, x requires 0 <= x < |t| => SlotCell(t[x]))
  }

  lemma SlotCellsUpdate(t: seq<Entry32>, i: nat, b: Entry32)
    requires i < |t|
    ensures SlotCells(t[i := b]) == SlotCells(t)[i := SlotCell(b)]
  {}

  function KeyHome(home: (nat, nat) -> nat, bits: nat): nat -> nat {
    (k: nat) => home(k, bits)
  }

  ghost predicate Lookup(t: seq<Entry32>, home: (nat, nat) -> nat, bits: nat, m: map<nat, nat>) {
    && IsHome(home)
    && |t| == Pow2(bits)
    && Table(SlotCells(t), KeyHome(home, bits), m)
  }

  lemma LookupStops(t: seq<Entry32>, home: (nat, nat) -> nat, bits: nat, m: map<nat, nat>) returns (e: nat)
    requires Lookup(t, home, bits, m) && |m| < |t|
    ensures e < |t| && t[e].slot == NIL
  {
    HasFree(SlotCells(t), m);
    e :| 0 <= e < |t| && SlotCells(t)[e].Free?;
  }

  lemma EmptyLookup(t: seq<Entry32>, home: (nat, nat) -> nat, bits: nat)
    requires IsHome(home) && |t| == Pow2(bits) && forall x :: 0 <= x < |t| ==> t[x].slot == NIL
    ensures Lookup(t, home, bits, map[])
  {
    EmptyTable(SlotCells(t), KeyHome(home, bits));
  }

  lemma LookupStore(t: seq<Entry32>, home: (nat, nat) -> nat, bits: nat, m: map<nat, nat>, k: nat, s: nat, i: nat)
    requires Lookup(t, home, bits, m) && i < |t| && t[i].slot == NIL && s != NIL
    requires Probed(SlotCells(t), home(k, bits), k, i)
    ensures k !in m && Lookup(t[i := Entry32(k, s)], home, bits, m[k := s])
  {
    hide Table, Probed;
    Store(SlotCells(t), KeyHome(home, bits), m, k, s, i);
    SlotCellsUpdate(t, i, Entry32(k, s));
  }

  lemma DeleteStarts(t: seq<Entry32>, home: (nat, nat) -> nat, bits: nat, m: map<nat, nat>, i: nat)
    requires Lookup(t, home, bits, m) && i < |t| && t[i].slot != NIL
    ensures IsHome(home) && t[i].key in m
    ensures Holed(SlotCells(t), KeyHome(home, bits), i, i, m - {t[i].key})
  {
    hide Table, Holed;
    HoleOpens(SlotCells(t), KeyHome(home, bits), m, i);
  }

  lemma DeleteStep(t: seq<Entry32>, home: (nat, nat) -> nat, bits: nat, i: nat, j: nat, m: map<nat, nat>, e: nat)
    requires |t| == Pow2(bits) && bits <= 32 && j < |t| && e < |t| && t[e].slot == NIL
    requires Holed(SlotCells(t), KeyHome(home, bits), i, j, m)
    requires t[Masked(j + 1, bits)].slot != NIL
    ensures var j' := Masked(j + 1, bits);
            && i < |t| && j' != i && e != i
            && Dist(|t|, j', e) < Dist(|t|, j, e)
            && if Masked(j' - home(t[j'].key, bits), bits) >= Masked(j' - i, bits)
               then Holed(SlotCells(t[i := t[j']]), KeyHome(home, bits), j', j', m)
               else Holed(SlotCells(t), KeyHome(home, bits), i, j', m)
  {
    hide Holed, Dist, Pow2, Masked;
    DeleteScans(SlotCells(t), KeyHome(home, bits), bits, i, j, m, e);
    SlotCellsUpdate(t, i, t[Masked(j + 1, bits)]);
  }

  lemma DeleteStops(t: seq<Entry32>, home: (nat, nat) -> nat, bits: nat, i: nat, j: nat, m: map<nat, nat>)
    requires |t| == Pow2(bits) && bits <= 32 && j < |t|
    requires IsHome(home) && Holed(SlotCells(t), KeyHome(home, bits), i, j, m)
    requires t[Masked(j + 1, bits)].slot == NIL
    ensures i < |t| && Lookup(t[i := Entry32(0, NIL)], home, bits, m)
  {
    hide Holed, Table, Pow2, Masked;
    DeleteEnds(SlotCells(t), KeyHome(home, bits), bits, i, j, m);
    SlotCellsUpdate(t, i, Entry32(0, NIL));
  }

  // ---- the recency list, the free chain and the slots ----

  /** The slots below `limit` (the source's `fresh`) are partitioned between the list and the chain. */
  ghost predicate Partitioned(order: seq<nat>, chain: seq<nat>, limit: nat) {
    && Distinct(order) && Distinct(chain)
    && (forall s :: s in order ==> s < limit && s !in chain)
    && (forall s :: s in chain ==> s < limit)
    && (forall s :: 0 <= s < limit ==> s in order || s in chain)
  }

  /** index maps the key of every listed slot to that slot, and nothing else. */
  ghost predicate Indexed(order: seq<nat>, key: seq<nat>, index: map<nat, nat>) {
    && |index| == |order|
    && Below(order, |key|)
    && (forall i :: 0 <= i < |order| ==> key[order[i]] in index && index[key[order[i]]] == order[i])
    && (forall k :: k in index ==> index[k] in order && key[index[k]] == k)
  }

  ghost function EntriesOf(order: seq<nat>, key: seq<nat>, val: seq<nat>, dl: seq<int>): (es: seq<Entry>)
    requires |key| == |val| == |dl| && Below(order, |key|)
    ensures |es| == |order|
    ensures forall i :: 0 <= i < |es| ==> es[i] == Entry(key[order[i]], val[order[i]], dl[order[i]])
  {
    seq(|order|, i requires 0 <= i < |order| => Entry(key[order[i]], val[order[i]], dl[order[i]]))
  }

  ghost predicate Arena(key: array<nat>, val: array<nat>, prev: array<nat>, next: array<nat>, dl: array<int>,
                        size: nat)
  {
    && key.Length == val.Length == prev.Length == next.Length == dl.Length == size
    && key != val && key != prev && key != next && val != prev && val != next && prev != next
    && 1 <= size <= 0x8000_0000
  }

  /** The slots below `limit` are the listed ones and the released ones. */
  ghost predicate Slots(order: seq<nat>, chain: seq<nat>, next: seq<nat>, free: nat, limit: nat, n: nat, size: nat) {
    && Chained(chain, next, free) && Partitioned(order, chain, limit)
    && n == |order| && limit == |order| + |chain| && limit <= size
  }

  ghost predicate Tabled(tab: seq<Entry32>, home: (nat, nat) -> nat, tbits: nat,
                         order: seq<nat>, key: seq<nat>, index: map<nat, nat>)
  {
    && 1 <= tbits <= 31 && 2 * |index| <= Pow2(tbits) == |tab|
    && Lookup(tab, home, tbits, index)
    && Indexed(order, key, index)
  }

  // ---- the list steps on sequences ----

  /** The listed slots, oldest first, the released slots, and the slot of every listed key. */
  datatype Layout = Layout(order: seq<nat>, chain: seq<nat>, index: map<nat, nat>)

  /** An entry leaves: an eviction or a removal is counted (lru.c:207). */
  function Departed(m: Metrics, evict: bool): Metrics {
    if evict then m.(evictions := m.evictions + 1) else m.(removals := m.removals + 1)
  }

  /** A new key for a cache of MAX_ENTRIES entries or more that is below its capacity. */
  predicate Full(m: Model, k: nat) {
    |m.entries| >= MAX_ENTRIES && m.cap > MAX_ENTRIES && IndexOf(m.entries, k) < 0
  }

  predicate Crowded(m: Model, op: Op) {
    op.AddOp? && Full(m, op.k)
  }

  class Cache {
    var cap: nat
    var n: nat
    var nextFresh: nat
    var size: nat
    var life: int
    var metrics: Metrics
    var head: nat
    var tail: nat
    var free: nat
    var key: array<nat>
    var val: array<nat>
    var prev: array<nat>
    var next: array<nat>
    var dl: array<int>
    var tab: array<Entry32>
    var tbits: nat
    const home: (nat, nat) -> nat

    ghost var g: Layout

    ghost predicate Valid()
      reads this, key, prev, next, tab
    {
      0 < cap && n <= cap && Shape()
    }

    /** Valid except that the capacity may be exceeded, as it is while resizing. */
    ghost predicate Shape()
      reads this, key, prev, next, tab
    {
      && Arena(key, val, prev, next, dl, size)
      && Threaded(g.order, prev[..], next[..], head, tail)
      && Slots(g.order, g.chain, next[..], free, nextFresh, n, size)
      && Tabled(tab[..], home, tbits, g.order, key[..], g.index)
    }

    /** The sequence model this cache stands for. */
    ghost function Abs(): Model
      reads this, key, val, dl, prev, next, tab
      requires Shape()
    {
      Model(cap, life, EntriesOf(g.order, key[..], val[..], dl[..]),
            metrics)
    }

    /** lru.c:150-165; lru.c:169-173 refuses the capacities 0 and 2^32 - 1 before it. */
    constructor (cap: nat, home: (nat, nat) -> nat)
      requires 0 < cap && IsHome(home)
      ensures Valid() && Abs() == New(cap)
      ensures fresh(Footprint() - {this})
    {
      this.cap := cap;
      this.home := home;
      n, nextFresh, size, life := 0, 0, 1, 0;
      metrics := ZERO;
      head, tail, free := NIL, NIL, NIL;
      key := new nat[1](_ => 0);
      val := new nat[1](_ => 0);
      prev := new nat[1](_ => 0);
      next := new nat[1](_ => 0);
      dl := new int[1](_ => 0);
      tbits := 1;
      tab := new Entry32[2](_ => Entry32(0, NIL));
      g := Layout([], [], map[]);
      new;
      assert Pow2(1) == 2;
      EmptyLookup(tab[..], home, tbits);
      EmptyLists(tab[..], home, tbits, prev[..], next[..], key[..], size);
    }

    /** The objects this cache may change. */
    ghost function Footprint(): set<object>
      reads this
    {
      {this, key, val, prev, next, dl, tab}
    }

    // ---- recency list ----

    /** lru.c:129-133. */
    method UnlinkSlot(s: nat, ghost at: nat)
      requires Arena(key, val, prev, next, dl, size) && Threaded(g.order, prev[..], next[..], head, tail)
      requires at < |g.order| && s == g.order[at]
      modifies this`head, this`tail, this`g, prev, next
      ensures Threaded(g.order, prev[..], next[..], head, tail)
      ensures g == old(g).(order := Cut(old(g.order), at))
      ensures SameOutside(old(g.order), old(next[..]), next[..])
    {
      hide Threaded;
      Unthread(g.order, prev[..], next[..], head, tail, at);
      ThreadedLinks(g.order, prev[..], next[..], head, tail, at);
      var p, q := prev[s], next[s];
      if p == NIL { head := q; } else { next[p] := q; }
      if q == NIL { tail := p; } else { prev[q] := p; }
      assert next[..] == if p == NIL then old(next[..]) else old(next[..])[p := q];
      assert prev[..] == if q == NIL then old(prev[..]) else old(prev[..])[q := p];
      g := g.(order := Cut(g.order, at));
    }

    /** lru.c:135-140. */
    method LinkTail(s: nat)
      requires Arena(key, val, prev, next, dl, size) && Threaded(g.order, prev[..], next[..], head, tail)
      requires s < size && s !in g.order
      modifies this`head, this`tail, this`g, prev, next
      ensures Threaded(g.order, prev[..], next[..], head, tail)
      ensures g == old(g).(order := old(g.order) + [s])
      ensures SameOutside(old(g.order) + [s], old(next[..]), next[..])
    {
      hide Threaded;
      Thread(g.order, prev[..], next[..], head, tail, s);
      ThreadedSlots(g.order, prev[..], next[..], head, tail);
      prev[s] := tail;
      next[s] := NIL;
      if tail == NIL { head := s; } else { next[tail] := s; }
      assert prev[..] == old(prev[..])[s := old(tail)];
      assert next[..] == if old(tail) == NIL then old(next[..])[s := NIL]
                         else old(next[..])[s := NIL][old(tail) := s];
      tail := s;
      g := g.(order := g.order + [s]);
    }

    /** lru.c:142-146. */
    method Touch(s: nat, ghost at: nat)
      requires Arena(key, val, prev, next, dl, size) && Threaded(g.order, prev[..], next[..], head, tail)
      requires at < |g.order| && s == g.order[at]
      modifies this`head, this`tail, this`g, prev, next
      ensures Threaded(g.order, prev[..], next[..], head, tail)
      ensures g == old(g).(order := Cut(old(g.order), at) + [s])
      ensures SameOutside(old(g.order), old(next[..]), next[..])
    {
      hide Threaded, Distinct;
      ThreadedSlots(g.order, prev[..], next[..], head, tail);
      if s == tail {
        LastAt(g.order, at);
        return;
      }
      CutFacts(g.order, at);
      UnlinkSlot(s, at);
      LinkTail(s);
    }

    // ---- lookup table ----

    /** lru.c:76-83. */
    method TabFind(k: nat) returns (s: nat)
      requires Tabled(tab[..], home, tbits, g.order, key[..], g.index) && Arena(key, val, prev, next, dl, size)
      ensures k in g.index ==> s == g.index[k] && s != NIL
      ensures k !in g.index ==> s == NIL
    {
      IndexedSlots(g.order, key[..], g.index);
      hide Table, Probed, Dist, Pow2, Masked, Next, Binds, Indexed;
      var i: nat := home(k, tbits);
      ghost var h := KeyHome(home, tbits);
      ghost var e := LookupStops(tab[..], home, tbits, g.index);
      ProbeStart(SlotCells(tab[..]), i, k);
      while true
        invariant i < tab.Length && Probed(SlotCells(tab[..]), h(k), k, i)
        decreases Dist(tab.Length, i, e)
      {
        var b := tab[i];
        if b.slot == NIL || b.key == k {
          ProbeEnd(SlotCells(tab[..]), h, g.index, k, i);
          return b.slot;
        }
        ProbeStep(SlotCells(tab[..]), h(k), k, i, e);
        MaskedNext(tbits, i);
        i := Masked(i + 1, tbits);
      }
    }

    /** lru.c:93-99: a table of twice the size, filled along the recency list. */
    method TabGrow()
      requires Arena(key, val, prev, next, dl, size) && Threaded(g.order, prev[..], next[..], head, tail)
      requires Tabled(tab[..], home, tbits, g.order, key[..], g.index) && tbits < 31
      modifies this`tab, this`tbits
      ensures Tabled(tab[..], home, tbits, g.order, key[..], g.index) && fresh(tab) && tbits == old(tbits) + 1
    {
      hide Table, Lookup, Threaded, Distinct, Indexed, Below, Pow2;
      var bits := tbits + 1;
      Pow2Next(tbits);
      var t := NewTable(bits, home, tab[..], tbits, g.index);
      var s := head;
      ghost var p, done: map<nat, nat> := 0, map[];
      ThreadedSlots(g.order, prev[..], next[..], head, tail);
      IndexedEmpty(key[..]);
      while s != NIL
        invariant p <= |g.order| && s == (if p == |g.order| then NIL else g.order[p])
        invariant Indexed(g.order[..p], key[..], done)
        invariant Indexed(g.order, key[..], g.index) && Threaded(g.order, prev[..], next[..], head, tail)
        invariant fresh(t) && t.Length == Pow2(bits) && Lookup(t[..], home, bits, done)
        decreases |g.order| - p
      {
        ThreadedAt(g.order, prev[..], next[..], head, tail, p);
        IndexedGrows(g.order, key[..], g.index, done, p);
        TabPutRaw(t, bits, key[s], s, home, done);
        done := done[key[s] := s];
        p := p + 1;
        s := next[s];
      }
      assert g.order[..p] == g.order;
      IndexedUnique(g.order, key[..], g.index, done);
      tab := t;
      tbits := bits;
    }

    /** lru.c:102-105: insert a key known to be absent, at load at most 1/2. */
    method TabInsert(k: nat, s: nat)
      requires Arena(key, val, prev, next, dl, size) && Threaded(g.order, prev[..], next[..], head, tail)
      requires Tabled(tab[..], home, tbits, g.order, key[..], g.index) && n == |g.index| < MAX_ENTRIES
      requires k !in g.index && s != NIL
      requires Indexed(g.order + [s], key[..], g.index[k := s])
      modifies this`tab, this`tbits, tab
      ensures tab == old(tab) || fresh(tab)
      ensures Tabled(tab[..], home, tbits, g.order + [s], key[..], g.index[k := s])
    {
      hide Lookup, Threaded, Indexed, Arena, Pow2;
      IndexedCount(g.order + [s], key[..], g.index[k := s]);
      IndexedCount(g.order, key[..], g.index);
      if 2 * (n + 1) > Pow2(tbits) {
        LoadBound(tbits, n);
        TabGrow();
      }
      TabPutRaw(tab, tbits, k, s, home, g.index);
    }

    /** lru.c:109-111: the bucket of a present key. */
    method TabSeat(k: nat) returns (i: nat)
      requires Tabled(tab[..], home, tbits, g.order, key[..], g.index) && k in g.index
      ensures i < tab.Length && tab[i].key == k && tab[i].slot != NIL
    {
      IndexedSlots(g.order, key[..], g.index);
      hide Table, Probed, Dist, Pow2, Masked, Next, Binds, Indexed;
      ghost var h := KeyHome(home, tbits);
      ghost var e := LookupStops(tab[..], home, tbits, g.index);
      i := home(k, tbits);
      ProbeStart(SlotCells(tab[..]), i, k);
      while tab[i].key != k || tab[i].slot == NIL
        invariant i < tab.Length && Probed(SlotCells(tab[..]), h(k), k, i)
        decreases Dist(tab.Length, i, e)
      {
        if tab[i].slot == NIL { ProbeEnd(SlotCells(tab[..]), h, g.index, k, i); }
        ProbeStep(SlotCells(tab[..]), h(k), k, i, e);
        MaskedNext(tbits, i);
        i := Masked(i + 1, tbits);
      }
    }

    /** lru.c:108-125: backward-shift deletion of a key known to be present. */
    method TabDelete(k: nat)
      requires Tabled(tab[..], home, tbits, g.order, key[..], g.index) && k in g.index
      modifies tab, this`g
      ensures g == old(g).(index := old(g.index) - {k})
      ensures Lookup(tab[..], home, tbits, g.index)
    {
      hide Table, Dist, Pow2, Masked, Indexed, Holed, Lookup, KeyHome, SlotCells;
      ghost var m := g.index - {k};
      ghost var e := LookupStops(tab[..], home, tbits, g.index);
      var i: nat := TabSeat(k);
      DeleteStarts(tab[..], home, tbits, g.index, i);
      var j: nat := i;
      while true
        invariant g == old(g) && i < tab.Length && j < tab.Length && tab[e].slot == NIL
        invariant Holed(SlotCells(tab[..]), KeyHome(home, tbits), i, j, m)
        decreases Dist(tab.Length, j, e)
      {
        ghost var t, j0 := tab[..], j;
        j := Masked(j + 1, tbits);
        if tab[j].slot == NIL {
          DeleteStops(t, home, tbits, i, j0, m);
          break;
        }
        DeleteStep(t, home, tbits, i, j0, m, e);
        var hm := home(tab[j].key, tbits);
        if Masked(j - hm, tbits) >= Masked(j - i, tbits) {
          tab[i] := tab[j];
          assert tab[..] == t[i := t[j]];
          i := j;
        }
      }
      ghost var t := tab[..];
      tab[i] := tab[i].(slot := NIL);
      tab[i] := tab[i].(key := 0);
      assert tab[..] == t[i := Entry32(0, NIL)];
      g := g.(index := m);
    }

    // ---- slots ----

    /** lru.c:204-205: an unlinked slot goes on the free chain. */
    method PushFree(s: nat, ghost at: nat, ghost order: seq<nat>, ghost next0: seq<nat>)
      requires next.Length == size && prev != next && s < size
      requires Threaded(g.order, prev[..], next[..], head, tail) && s !in g.order
      requires Chained(g.chain, next0, free) && Partitioned(order, g.chain, nextFresh)
      requires SameOutside(order, next0, next[..]) && |next0| == size && at < |order| && order[at] == s
      modifies this`free, this`g, next
      ensures g == old(g).(chain := [s] + old(g.chain)) && free == s
      ensures Threaded(g.order, prev[..], next[..], head, tail) && Chained(g.chain, next[..], free)
    {
      hide Threaded, Chained, Partitioned, SameOutside;
      ChainPush(order, g.chain, nextFresh, next0, next[..], free, at);
      ThreadedIgnores(g.order, prev[..], next[..], head, tail, s, free);
      next[s] := free;
      assert next[..] == old(next[..])[s := old(free)];
      free := s;
      g := g.(chain := [s] + g.chain);
    }

    /** lru.c:200-209. */
    method RemoveSlot(s: nat, evict: bool, ghost at: nat) returns (v: nat)
      requires Shape() && at < |g.order| && s == g.order[at]
      modifies this`n, this`metrics, this`head, this`tail, this`free, this`g, tab, prev, next
      ensures Shape() && n == old(n) - 1 && v == old(val[s])
      ensures EntriesOf(g.order, key[..], val[..], dl[..])
              == Drop(old(EntriesOf(g.order, key[..], val[..], dl[..])), at)
      ensures metrics == Departed(old(metrics), evict)
    {
      hide Tabled, Slots, Threaded, Distinct, Chained, Partitioned, EntriesOf, Drop, Cut, Below, SameOutside, Departed;
      ghost var t, order := tab[..], g.order;
      RemovalReady(g, t, home, tbits, key[..], val[..], dl[..], next[..], free, nextFresh, n, size, at);
      v := val[s];
      TabDelete(key[s]);
      ReleaseSlot(s, at);
      n := n - 1;
      metrics := Departed(metrics, evict);
      CutTabled(t, tab[..], home, tbits, order, key[..], old(g.index), at);
    }

    /** lru.c:203-205: from the list to the free chain. */
    method ReleaseSlot(s: nat, ghost at: nat)
      requires Arena(key, val, prev, next, dl, size) && Threaded(g.order, prev[..], next[..], head, tail)
      requires Slots(g.order, g.chain, next[..], free, nextFresh, n, size) && at < |g.order| && s == g.order[at] < size
      modifies this`head, this`tail, this`free, this`g, prev, next
      ensures Threaded(g.order, prev[..], next[..], head, tail)
      ensures Slots(g.order, g.chain, next[..], free, nextFresh, n - 1, size)
      ensures g == old(g).(order := Cut(old(g.order), at), chain := [s] + old(g.chain))
    {
      hide Threaded, Distinct, Chained, Partitioned, Cut, SameOutside;
      CutPartition(g.order, g.chain, nextFresh, at);
      UnlinkSlot(s, at);
      PushFree(s, at, old(g.order), old(next[..]));
      CutSlots(old(g.order), old(g.chain), old(next[..]), next[..], old(free), nextFresh, n, size, at);
    }

    /** lru.c:175-189: every slot array is copied into one of twice the size. */
    method GrowSlots()
      requires Arena(key, val, prev, next, dl, size) && size <= 0x4000_0000
      modifies this`key, this`val, this`prev, this`next, this`dl, this`size
      ensures Arena(key, val, prev, next, dl, size) && size == 2 * old(size)
      ensures fresh(key) && fresh(val) && fresh(prev) && fresh(next) && fresh(dl)
      ensures key[..old(size)] == old(key[..]) && val[..old(size)] == old(val[..]) && dl[..old(size)] == old(dl[..])
      ensures prev[..old(size)] == old(prev[..]) && next[..old(size)] == old(next[..])
    {
      var m := 2 * size;
      key := Regrow(key, m, 0);
      val := Regrow(val, m, 0);
      prev := Regrow(prev, m, 0);
      next := Regrow(next, m, 0);
      dl := Regrow(dl, m, 0);
      size := m;
    }

    /** lru.c:224-230: a released slot is reused before a fresh one. */
    method TakeSlot() returns (s: nat)
      requires Valid() && n < MAX_ENTRIES
      modifies this`free, this`nextFresh, this`g
      modifies this`key, this`val, this`prev, this`next, this`dl, this`size
      ensures Arena(key, val, prev, next, dl, size) && s < size && s !in g.order && s != NIL
      ensures n == |g.order|
      ensures Threaded(g.order, prev[..], next[..], head, tail)
      ensures Slots(g.order + [s], g.chain, next[..], free, nextFresh, n + 1, size)
      ensures Tabled(tab[..], home, tbits, g.order, key[..], g.index)
      ensures g.order == old(g.order) && g.index == old(g.index)
      ensures || (key == old(key) && val == old(val) && prev == old(prev) && next == old(next) && dl == old(dl))
              || (fresh(key) && fresh(val) && fresh(prev) && fresh(next) && fresh(dl))
      ensures EntriesOf(g.order, key[..], val[..], dl[..]) == old(EntriesOf(g.order, key[..], val[..], dl[..]))
    {
      hide Threaded, Chained, Partitioned, Tabled, EntriesOf, Below;
      if free != NIL {
        ChainPop(g.order, g.chain, next[..], free, nextFresh);
        s := free;
        free := next[s];
        g := g.(chain := g.chain[1..]);
      } else {
        ChainEmpty(g.order, g.chain, next[..], free, nextFresh);
        if nextFresh >= size { ExtendSlots(); }
        s := nextFresh;
        nextFresh := nextFresh + 1;
      }
    }

    /** Larger slot arrays hold the same cache. */
    method ExtendSlots()
      requires Shape() && size <= 0x4000_0000
      modifies this`key, this`val, this`prev, this`next, this`dl, this`size
      ensures Shape() && size > old(size)
      ensures fresh(key) && fresh(val) && fresh(prev) && fresh(next) && fresh(dl)
      ensures EntriesOf(g.order, key[..], val[..], dl[..]) == old(EntriesOf(g.order, key[..], val[..], dl[..]))
    {
      hide Threaded, Chained, Partitioned, Tabled, EntriesOf, Below;
      GrowSlots();
      GrownLists(g.order, g.chain, old(prev[..]), old(next[..]), prev[..], next[..], head, tail, free);
      GrownTabled(tab[..], home, tbits, g.order, g.index, old(key[..]), old(val[..]), old(dl[..]),
                  key[..], val[..], dl[..]);
    }

    /** remove_slot on the head of the list. */
    method DropOldest(evict: bool)
      requires Shape() && n > 0 && Below(g.order, size)
      modifies this`n, this`metrics, this`head, this`tail, this`free, this`g, tab, prev, next
      ensures Shape() && n == old(n) - 1 && Below(g.order, size)
      ensures if n == 0 then head == NIL else head != NIL && head < size
      ensures var es := old(EntriesOf(g.order, key[..], val[..], dl[..]));
              && |es| == n + 1 && EntriesOf(g.order, key[..], val[..], dl[..]) == es[1..]
              && (n > 0 ==> dl[head] == es[1].deadline)
      ensures metrics == Departed(old(metrics), evict)
    {
      hide Tabled, Threaded, EntriesOf, Chained, Partitioned, Drop, Distinct;
      ListBound();
      DropFirst(EntriesOf(g.order, key[..], val[..], dl[..]), 0);
      var _ := RemoveSlot(head, evict, 0);
      ListBound();
    }

    lemma ListBound()
      requires Shape()
      ensures Arena(key, val, prev, next, dl, size) && Below(g.order, size) && n == |g.order|
      ensures if n == 0 then head == NIL else head == g.order[0] != NIL && head < size
    {}

    // ---- operations ----

    /** lru.c:231-233. */
    method FillSlot(s: nat, k: nat, v: nat, d: int)
      requires Arena(key, val, prev, next, dl, size) && s < size && s !in g.order && k !in g.index
      requires Tabled(tab[..], home, tbits, g.order, key[..], g.index)
      modifies key, val, dl
      ensures prev[..] == old(prev[..]) && next[..] == old(next[..])
      ensures |g.index| == |g.order|
      ensures Indexed(g.order + [s], key[..], g.index[k := s])
      ensures Tabled(tab[..], home, tbits, g.order, key[..], g.index)
      ensures EntriesOf(g.order + [s], key[..], val[..], dl[..])
              == old(EntriesOf(g.order, key[..], val[..], dl[..])) + [Entry(k, v, d)]
    {
      hide Indexed, EntriesOf, Lookup;
      StoreFacts(g.order, g.index, key[..], val[..], dl[..], s, k, v, d);
      key[s] := k;
      val[s] := v;
      dl[s] := d;
      assert key[..] == old(key[..])[s := k] && val[..] == old(val[..])[s := v] && dl[..] == old(dl[..])[s := d];
    }

    /** lru.c:224-237: the insertion of an absent key below capacity. */
    method InsertNew(k: nat, v: nat, d: int)
      requires Valid() && n < MAX_ENTRIES && n < cap && k !in g.index
      modifies this, key, val, prev, next, dl, tab
      ensures Valid() && cap == old(cap) && life == old(life)
      ensures fresh(Footprint() - old(Footprint()))
      ensures EntriesOf(g.order, key[..], val[..], dl[..])
              == old(EntriesOf(g.order, key[..], val[..], dl[..])) + [Entry(k, v, d)]
      ensures metrics == old(metrics).(inserts := old(metrics).inserts + 1)
    {
      hide Lookup, Threaded, Indexed, Pow2, EntriesOf, Below, Slots, Tabled, Arena;
      var s := FillFree(k, v, d);
      Enlist(s, k);
    }

    /** lru.c:234-237: the filled slot enters the table and becomes the newest. */
    method Enlist(s: nat, k: nat)
      requires Arena(key, val, prev, next, dl, size) && s < size && s !in g.order && s != NIL
      requires n == |g.index| < MAX_ENTRIES && n < cap && k !in g.index
      requires Threaded(g.order, prev[..], next[..], head, tail)
      requires Slots(g.order + [s], g.chain, next[..], free, nextFresh, n + 1, size)
      requires Tabled(tab[..], home, tbits, g.order, key[..], g.index)
      requires Indexed(g.order + [s], key[..], g.index[k := s])
      modifies this`tab, this`tbits, this`head, this`tail, this`g, this`n, this`metrics, tab, prev, next
      ensures Valid() && g.order == old(g.order) + [s] && (tab == old(tab) || fresh(tab))
      ensures key[..] == old(key[..]) && val[..] == old(val[..])
      ensures metrics == old(metrics).(inserts := old(metrics).inserts + 1)
    {
      hide Threaded, Indexed, Below, Slots, Tabled, Arena;
      TabInsert(k, s);
      LinkNew(s, k);
    }

    /** lru.c:224-234: a free slot, filled. */
    method FillFree(k: nat, v: nat, d: int) returns (s: nat)
      requires Valid() && n < MAX_ENTRIES && k !in g.index
      modifies this`free, this`nextFresh, this`g
      modifies this`key, this`val, this`prev, this`next, this`dl, this`size, key, val, dl
      ensures Arena(key, val, prev, next, dl, size) && s < size && s !in g.order && s != NIL
      ensures n == |g.index|
      ensures Threaded(g.order, prev[..], next[..], head, tail)
      ensures Slots(g.order + [s], g.chain, next[..], free, nextFresh, n + 1, size)
      ensures Tabled(tab[..], home, tbits, g.order, key[..], g.index)
      ensures g.order == old(g.order) && g.index == old(g.index)
      ensures || (key == old(key) && val == old(val) && prev == old(prev) && next == old(next) && dl == old(dl))
              || (fresh(key) && fresh(val) && fresh(prev) && fresh(next) && fresh(dl))
      ensures Indexed(g.order + [s], key[..], g.index[k := s])
      ensures EntriesOf(g.order + [s], key[..], val[..], dl[..])
              == old(EntriesOf(g.order, key[..], val[..], dl[..])) + [Entry(k, v, d)]
    {
      hide Threaded, Indexed, EntriesOf, Below, Slots, Tabled;
      s := TakeSlot();
      FillSlot(s, k, v, d);
    }

    /** lru.c:235-237 with the ghost index. */
    method LinkNew(s: nat, k: nat)
      requires Arena(key, val, prev, next, dl, size) && s < size && s !in g.order
      requires Threaded(g.order, prev[..], next[..], head, tail)
      requires Slots(g.order + [s], g.chain, next[..], free, nextFresh, n + 1, size)
      modifies this`head, this`tail, this`g, this`n, this`metrics, prev, next
      ensures n == old(n) + 1 && metrics == old(metrics).(inserts := old(metrics).inserts + 1)
      ensures key[..] == old(key[..]) && val[..] == old(val[..])
      ensures g.order == old(g.order) + [s] && g.index == old(g.index)[k := s]
      ensures Threaded(g.order, prev[..], next[..], head, tail)
      ensures Slots(g.order, g.chain, next[..], free, nextFresh, n, size)
    {
      hide Threaded, Partitioned, SameOutside;
      n := n + 1;
      metrics := metrics.(inserts := metrics.inserts + 1);
      LinkTail(s);
      g := g.(index := g.index[k := s]);
      ChainKept(g.order, g.chain, old(next[..]), next[..], free, nextFresh);
    }

    /** lru.c:216-219: a present key's entry is overwritten in place and becomes the newest. */
    method ReplaceAt(s: nat, v: nat, d: int, ghost at: nat)
      requires Valid() && at < |g.order| && s == g.order[at]
      modifies this`head, this`tail, this`g, this`metrics, val, dl, prev, next
      ensures Valid()
      ensures EntriesOf(g.order, key[..], val[..], dl[..])
              == Drop(old(EntriesOf(g.order, key[..], val[..], dl[..])), at) + [Entry(old(key[s]), v, d)]
      ensures metrics == old(metrics).(inserts := old(metrics).inserts + 1, replaced := old(metrics).replaced + 1)
    {
      hide Tabled, Threaded, EntriesOf, Below, Slots, Distinct, Drop, Cut;
      ThreadedSlots(g.order, prev[..], next[..], head, tail);
      TouchTabled(tab[..], home, tbits, g.order, key[..], g.index, s, at);
      TouchEntries(g.order, key[..], val[..], dl[..], s, v, d, at);
      val[s] := v;
      dl[s] := d;
      assert val[..] == old(val[..])[s := v] && dl[..] == old(dl[..])[s := d];
      TouchListed(s, at);
      metrics := metrics.(inserts := metrics.inserts + 1, replaced := metrics.replaced + 1);
    }

    /** Touch, seen by the free chain. */
    method TouchListed(s: nat, ghost at: nat)
      requires Arena(key, val, prev, next, dl, size) && at < |g.order| && s == g.order[at]
      requires Threaded(g.order, prev[..], next[..], head, tail)
      requires Slots(g.order, g.chain, next[..], free, nextFresh, n, size)
      modifies this`head, this`tail, this`g, prev, next
      ensures g == old(g).(order := Cut(old(g.order), at) + [s])
      ensures Threaded(g.order, prev[..], next[..], head, tail)
      ensures Slots(g.order, g.chain, next[..], free, nextFresh, n, size)
      ensures key[..] == old(key[..]) && val[..] == old(val[..])
    {
      hide Threaded, Partitioned, SameOutside, Chained;
      TouchPartition(g.order, g.chain, nextFresh, at);
      Touch(s, at);
      ChainKept(old(g.order), g.chain, old(next[..]), next[..], free, nextFresh);
    }

    /** lru.c:212-239. Only a new key that evicts nothing needs room in the table. */
    method Add(k: nat, v: nat, now: int) returns (ev: bool)
      requires Valid() && !Full(Abs(), k)
      modifies this, key, val, prev, next, dl, tab
      ensures Valid() && (Abs(), ev) == LruModel.Add(old(Abs()), k, v, now) && cap == old(cap)
      ensures fresh(Footprint() - old(Footprint()))
    {
      hide Tabled, Threaded, EntriesOf, Below, Slots, DeadlineOf, Drop, IndexOf;
      ghost var at := FindEntry(k);
      ListBound();
      var d := DeadlineOf(life, now);
      var s := TabFind(k);
      if s != NIL {
        ReplaceAt(s, v, d, at);
        return false;
      }
      ev := AddNew(k, v, d);
    }

    /** lru.c:222-238: an absent key, after an eviction at capacity. */
    method AddNew(k: nat, v: nat, d: int) returns (ev: bool)
      requires Valid() && (n < MAX_ENTRIES || cap <= MAX_ENTRIES) && k !in g.index
      modifies this, key, val, prev, next, dl, tab
      ensures Valid() && cap == old(cap) && life == old(life)
      ensures fresh(Footprint() - old(Footprint()))
      ensures ev == old(cap <= n)
      ensures var es := old(EntriesOf(g.order, key[..], val[..], dl[..]));
              && (ev ==> es != [])
              && EntriesOf(g.order, key[..], val[..], dl[..]) == (if ev then es[1..] else es) + [Entry(k, v, d)]
      ensures var m := old(metrics);
              metrics == m.(inserts := m.inserts + 1, evictions := if ev then m.evictions + 1 else m.evictions)
    {
      hide Tabled, Threaded, EntriesOf, Below, Slots, Arena;
      ev := cap <= n;
      if ev { EvictOldest(k); }
      InsertNew(k, v, d);
    }

    /** lru.c:223: make room for the absent key k. */
    method EvictOldest(ghost k: nat)
      requires Valid() && n == cap && k !in g.index
      modifies this`n, this`metrics, this`head, this`tail, this`free, this`g, tab, prev, next
      ensures Valid() && n < cap && k !in g.index
      ensures |old(g.order)| > 0
      ensures EntriesOf(g.order, key[..], val[..], dl[..]) == old(EntriesOf(g.order, key[..], val[..], dl[..]))[1..]
      ensures metrics == old(metrics).(evictions := old(metrics).evictions + 1)
    {
      hide Tabled, Threaded, EntriesOf, Below, Slots, Drop, IndexOf;
      ListBound();
      ghost var at := FindEntry(k);
      IndexOfRest(EntriesOf(g.order, key[..], val[..], dl[..]), k);
      DropOldest(true);
      at := FindEntry(k);
    }

    /** lru.c:242-257. */
    method Read(k: nat, now: int, tracked: bool) returns (v: nat, found: bool)
      requires Valid()
      modifies this`n, this`metrics, this`head, this`tail, this`free, this`g, tab, prev, next
      ensures Valid() && (Abs(), v, found) == LruModel.Read(old(Abs()), k, now, tracked)
    {
      hide Tabled, Threaded, EntriesOf, Below, Slots, Drop, IndexOf;
      ghost var at := FindEntry(k);
      var s := TabFind(k);
      if s == NIL {
        if tracked { metrics := metrics.(misses := metrics.misses + 1); }
        return 0, false;
      }
      if Expired(dl[s], now) {
        var _ := RemoveSlot(s, false, at);
        if tracked { metrics := metrics.(misses := metrics.misses + 1); }
        return 0, false;
      }
      if tracked { Hit(s, at); }
      found := true;
      v := val[s];
    }

    /** lru.c:254. */
    method Hit(s: nat, ghost at: nat)
      requires Valid() && at < |g.order| && s == g.order[at]
      modifies this`head, this`tail, this`g, this`metrics, prev, next
      ensures Valid()
      ensures var es := old(EntriesOf(g.order, key[..], val[..], dl[..]));
              EntriesOf(g.order, key[..], val[..], dl[..]) == Drop(es, at) + [es[at]]
      ensures metrics == old(metrics).(hits := old(metrics).hits + 1)
      ensures val[..] == old(val[..])
    {
      hide Tabled, Threaded, EntriesOf, Below, Slots, Distinct, Drop, Cut;
      ThreadedSlots(g.order, prev[..], next[..], head, tail);
      TouchTabled(tab[..], home, tbits, g.order, key[..], g.index, s, at);
      SlotBound(g.order, size, at);
      TouchEntries(g.order, key[..], val[..], dl[..], s, val[s], dl[s], at);
      assert val[..][s := val[s]] == val[..] && dl[..][s := dl[s]] == dl[..];
      metrics := metrics.(hits := metrics.hits + 1);
      TouchListed(s, at);
    }

    /** What a lookup's answer means in the sequence model. */
    lemma FindEntry(k: nat) returns (at: int)
      requires Shape()
      ensures Below(g.order, size)
      ensures var es := EntriesOf(g.order, key[..], val[..], dl[..]);
              && at == IndexOf(es, k)
              && (at >= 0 <==> k in g.index)
              && (at >= 0 ==> var s := g.index[k];
                              s < size && g.order[at] == s && es[at] == Entry(key[s], val[s], dl[s]))
    {
      hide Lookup, Threaded, Slots;
      ThreadedSlots(g.order, prev[..], next[..], head, tail);
      Located(g, key[..], val[..], dl[..], k);
      at := IndexOf(EntriesOf(g.order, key[..], val[..], dl[..]), k);
    }

    /** lru.c:259-263. */
    method Remove(k: nat) returns (v: nat, found: bool)
      requires Valid()
      modifies this`n, this`metrics, this`head, this`tail, this`free, this`g, tab, prev, next
      ensures Valid() && (Abs(), v, found) == LruModel.Remove(old(Abs()), k)
    {
      hide Tabled, Threaded, EntriesOf, Below, Slots, Drop, IndexOf;
      ghost var at := FindEntry(k);
      var s := TabFind(k);
      found := s != NIL;
      v := 0;
      if found { v := RemoveSlot(s, false, at); }
    }

    /** lru.c:267-268. */
    method ClearTable()
      requires IsHome(home) && tab.Length == Pow2(tbits)
      modifies tab
      ensures Lookup(tab[..], home, tbits, map[])
    {
      for i := 0 to tab.Length
        invariant forall x :: 0 <= x < i ==> tab[x].slot == NIL
      {
        tab[i] := Entry32(0, NIL);
      }
      EmptyLookup(tab[..], home, tbits);
    }

    /** lru.c:265-274. */
    method Purge() returns (count: nat)
      requires Valid()
      modifies this`n, this`metrics, this`head, this`tail, this`free, this`nextFresh, this`g, tab
      ensures Valid() && (Abs(), count) == LruModel.Purge(old(Abs()))
    {
      hide Threaded, Slots, Tabled, EntriesOf, IsHome, Lookup;
      count := n;
      TableFacts(tab[..], home, tbits, g.order, key[..], g.index);
      CountListed(g.order, g.chain, next[..], free, nextFresh, n, size);
      ClearTable();
      ClearLists();
    }

    /** lru.c:268-273: every counter and link back to its start. */
    method ClearLists()
      requires Arena(key, val, prev, next, dl, size) && 1 <= tbits <= 31 && Pow2(tbits) == tab.Length
      requires Lookup(tab[..], home, tbits, map[])
      modifies this`n, this`metrics, this`head, this`tail, this`free, this`nextFresh, this`g
      ensures Shape() && n == 0 && metrics == ZERO && g.order == []
      ensures EntriesOf(g.order, key[..], val[..], dl[..]) == []
    {
      hide Threaded, Slots, Tabled, EntriesOf, Lookup;
      EmptyLists(tab[..], home, tbits, prev[..], next[..], key[..], size);
      NoEntries(key[..], val[..], dl[..]);
      n, nextFresh := 0, 0;
      head, tail, free := NIL, NIL, NIL;
      metrics := ZERO;
      g := Layout([], [], map[]);
    }

    /** lru.c:277-284. */
    method Resize(cap': nat) returns (ok: bool, ev: nat)
      requires Valid()
      modifies this`cap, this`n, this`metrics, this`head, this`tail, this`free, this`g, tab, prev, next
      ensures Valid() && (Abs(), ok, ev) == LruModel.Resize(old(Abs()), cap')
    {
      hide Tabled, Threaded, Slots, EntriesOf, LruModel.Resize;
      if cap' == 0 {
        ResizeRefused(Abs());
        return false, 0;
      }
      cap := cap';
      ev := EvictOver();
      ok := true;
      ResizeIs(old(Abs()), cap', ev);
    }

    /** lru.c:281: the oldest entries over the capacity go. */
    method EvictOver() returns (ev: nat)
      requires Shape() && 0 < cap
      modifies this`n, this`metrics, this`head, this`tail, this`free, this`g, tab, prev, next
      ensures Valid()
      ensures var es := old(EntriesOf(g.order, key[..], val[..], dl[..]));
              && ev <= |es| <= cap + ev && (ev == 0 || |es| - ev >= cap)
              && EntriesOf(g.order, key[..], val[..], dl[..]) == es[ev..]
      ensures metrics == old(metrics).(evictions := old(metrics).evictions + ev)
    {
      hide Tabled, Threaded, Slots, EntriesOf, Below;
      ListBound();
      ghost var es, m := EntriesOf(g.order, key[..], val[..], dl[..]), metrics;
      ev := 0;
      assert es[0..] == es;
      while cap < n
        invariant Shape() && Below(g.order, size) && n + ev == |es|
        invariant EntriesOf(g.order, key[..], val[..], dl[..]) == es[ev..]
        invariant ev == 0 || n >= cap
        invariant metrics == m.(evictions := m.evictions + ev)
        decreases n
      {
        DropOldest(true);
        SuffixRest(es, ev);
        ev := ev + 1;
      }
    }

    /** lru.c:290. */
    method DropExpired(now: int)
      requires Valid()
      modifies this`n, this`metrics, this`head, this`tail, this`free, this`g, tab, prev, next
      ensures Valid() && n <= old(n)
      ensures var es := old(EntriesOf(g.order, key[..], val[..], dl[..]));
              var e := ExpiredPrefix(es, now);
              && EntriesOf(g.order, key[..], val[..], dl[..]) == es[e..]
              && metrics == old(metrics).(removals := old(metrics).removals + e)
    {
      hide Tabled, Threaded, Slots, EntriesOf, Below, ExpiredPrefix, AllExpired;
      ListBound();
      ghost var es, m := EntriesOf(g.order, key[..], val[..], dl[..]), metrics;
      ghost var e := 0;
      NoneExpired(es, now);
      while head != NIL && Expired(dl[head], now)
        invariant Shape() && Below(g.order, size) && n + e == |es|
        invariant if n == 0 then head == NIL else head != NIL && head < size && dl[head] == es[e].deadline
        invariant EntriesOf(g.order, key[..], val[..], dl[..]) == es[e..]
        invariant AllExpired(es, e, now)
        invariant metrics == m.(removals := m.removals + e)
        decreases n
      {
        OneMoreExpired(es, e, now);
        DropOldest(false);
        SuffixRest(es, e);
        e := e + 1;
      }
      PrefixIs(es, now, e);
    }

    /** lru.c:289-294: drop the expired oldest entries, then list the keys into `out`. */
    method Keys(out: array<nat>, now: int) returns (m: nat)
      requires Valid() && n <= out.Length && out != prev && out != next && out != key && out != val
      modifies this`n, this`metrics, this`head, this`tail, this`free, this`g, tab, prev, next, out
      ensures Valid() && m <= out.Length && (Abs(), out[..m]) == LruModel.Keys(old(Abs()), now)
    {
      hide Tabled, Threaded, Slots, EntriesOf, Below, ExpiredPrefix, LruModel.KeysOf;
      DropExpired(now);
      ListBound();
      ghost var vs := val[..];
      m := ListKeys(out);
      assert val[..] == vs;
    }

    /** lru.c:292: a walk along the list. */
    method ListKeys(out: array<nat>) returns (m: nat)
      requires Arena(key, val, prev, next, dl, size) && Threaded(g.order, prev[..], next[..], head, tail)
      requires Below(g.order, size) && |g.order| <= out.Length
      requires out != prev && out != next && out != key && out != val
      modifies out
      ensures m == |g.order| && out[..m] == LruModel.KeysOf(EntriesOf(g.order, key[..], val[..], dl[..]))
    {
      hide Threaded, EntriesOf, Below;
      ghost var es, ks := EntriesOf(g.order, key[..], val[..], dl[..]), key[..];
      m := 0;
      var s := head;
      ThreadedSlots(g.order, prev[..], next[..], head, tail);
      while s != NIL
        invariant m <= |g.order| && s == (if m == |g.order| then NIL else g.order[m])
        invariant forall j :: 0 <= j < m ==> out[j] == es[j].key
        invariant Threaded(g.order, prev[..], next[..], head, tail) && key[..] == ks
        decreases |g.order| - m
      {
        ThreadedAt(g.order, prev[..], next[..], head, tail, m);
        assert es[m].key == key[s];
        out[m] := key[s];
        m := m + 1;
        s := next[s];
      }
      assert out[..m] == LruModel.KeysOf(es);
      assert val[..] == old(val[..]);
    }

    /** lru.c:416, the assignment in op_set_lifetime. */
    method SetLifetime(ns: int)
      requires Valid()
      modifies this`life
      ensures Valid() && Abs() == SetLife(old(Abs()), ns)
    {
      hide Threaded, Slots, Tabled, EntriesOf;
      life := ns;
    }

    /** Whether the operation would add a new key that the largest table has no room for. */
    method MeetsFull(op: Op) returns (b: bool)
      requires Valid()
      ensures b <==> Crowded(Abs(), op)
    {
      hide Tabled, Threaded, EntriesOf, Below, Slots, IndexOf;
      b := false;
      if op.AddOp? {
        ListBound();
        ghost var at := FindEntry(op.k);
        var s := TabFind(op.k);
        b := s == NIL && n >= MAX_ENTRIES && cap > MAX_ENTRIES;
      }
    }

    method Apply(op: Op) returns (o: Out)
      requires Valid() && !Crowded(Abs(), op)
      modifies Footprint()
      ensures Valid() && (Abs(), o) == Step(old(Abs()), op)
      ensures fresh(Footprint() - old(Footprint()))
      ensures cap == old(cap) || (op.ResizeOp? && cap == op.cap)
    {
      hide Shape, EntriesOf, LruModel.Add, LruModel.Read, LruModel.Remove, LruModel.Purge, LruModel.Keys;
      match op
      case AddOp(k, v, now) => var ev := Add(k, v, now); o := Evicted(ev);
      case ReadOp(k, now, tracked) => var v, f := Read(k, now, tracked); o := Value(v, f);
      case RemoveOp(k) => var v, f := Remove(k); o := Value(v, f);
      case PurgeOp => var c := Purge(); o := Count(c);
      case ResizeOp(cap') => var ok, ev := Resize(cap'); o := Resized(ok, ev);
      case KeysOp(now) =>
        var out := new nat[n];
        var m := Keys(out, now);
        o := KeyList(out[..m]);
      case SetLifeOp(life') => SetLifetime(life'); o := Done;
    }
  }

  /** Few operations, or capacities that fit the largest table: then no addition is crowded. */
  predicate Modest(cap: nat, ops: seq<Op>) {
    || |ops| <= MAX_ENTRIES
    || (cap <= MAX_ENTRIES && forall i :: 0 <= i < |ops| && ops[i].ResizeOp? ==> ops[i].cap <= MAX_ENTRIES)
  }

  lemma AddBounds(m: Model, k: nat, v: nat, now: int)
    ensures var r := LruModel.Add(m, k, v, now).0; |r.entries| <= |m.entries| + 1 && r.cap == m.cap
  {
    hide IndexOf, DeadlineOf;
  }

  lemma ReadBounds(m: Model, k: nat, now: int, tracked: bool)
    ensures var r := LruModel.Read(m, k, now, tracked).0; |r.entries| <= |m.entries| && r.cap == m.cap
  {
    hide IndexOf, Expired;
  }

  lemma StepBounds(m: Model, op: Op)
    ensures |Step(m, op).0.entries| <= |m.entries| + 1
    ensures Step(m, op).0.cap == m.cap || (op.ResizeOp? && Step(m, op).0.cap == op.cap)
  {
    hide LruModel.Add, LruModel.Read, IndexOf, ExpiredPrefix, LruModel.KeysOf;
    match op
    case AddOp(k, v, now) => AddBounds(m, k, v, now);
    case ReadOp(k, now, tracked) => ReadBounds(m, k, now, tracked);
    case _ =>
  }

  lemma {:induction false} RunBounds(cap: nat, ops: seq<Op>, i: nat)
    requires i <= |ops| && Modest(cap, ops)
    ensures var m := Run(New(cap), ops[..i]); |m.entries| <= i && (|ops| <= MAX_ENTRIES || m.cap <= MAX_ENTRIES)
  {
    hide Step;
    if i > 0 {
      RunBounds(cap, ops, i - 1);
      RunSnoc(New(cap), ops, i - 1);
      StepBounds(Run(New(cap), ops[..i - 1]), ops[i - 1]);
    }
  }

  /** No addition of a modest run is crowded. */
  lemma ModestRoom(cap: nat, ops: seq<Op>, i: nat)
    requires i < |ops| && Modest(cap, ops)
    ensures !Crowded(Run(New(cap), ops[..i]), ops[i])
  {
    hide Run, IndexOf;
    RunBounds(cap, ops, i);
  }

  /** Every run on a new cache, of any length, answers as the sequence model does and ends in the
      state the model reaches, so the laws of LruModel hold of it; it stops only before an addition
      that the largest table has no room for, which a modest run never meets. */
  method RunOps(cap: nat, home: (nat, nat) -> nat, ops: seq<Op>) returns (c: Cache, outs: seq<Out>)
    requires 0 < cap && IsHome(home)
    ensures |outs| <= |ops| && outs == Outs(New(cap), ops[..|outs|])
    ensures c.Valid() && c.Abs() == Run(New(cap), ops[..|outs|]) && Good(c.Abs())
    ensures |outs| < |ops| ==> Crowded(c.Abs(), ops[|outs|]) && !Modest(cap, ops)
  {
    hide Cache.Shape, Cache.Abs, Step, Good, Run, Outs, Crowded, Modest;
    c := new Cache(cap, home);
    outs := [];
    RunNone(cap, ops);
    while |outs| < |ops|
      invariant |outs| <= |ops| && fresh(c.Footprint()) && c.Valid() && c.Abs() == Run(New(cap), ops[..|outs|])
      invariant outs == Outs(New(cap), ops[..|outs|])
      decreases |ops| - |outs|
    {
      RunSnoc(New(cap), ops, |outs|);
      var crowded := c.MeetsFull(ops[|outs|]);
      if crowded {
        if Modest(cap, ops) { ModestRoom(cap, ops, |outs|); }
        break;
      }
      var o := c.Apply(ops[|outs|]);
      outs := outs + [o];
    }
    RunGood(cap, ops[..|outs|]);
  }

  lemma RunNone(cap: nat, ops: seq<Op>)
    ensures Run(New(cap), ops[..0]) == New(cap) && Outs(New(cap), ops[..0]) == []
  {}

  /** The first e entries have expired. */
  ghost predicate AllExpired(es: seq<Entry>, e: nat, now: int) {
    e <= |es| && forall j :: 0 <= j < e ==> Expired(es[j].deadline, now)
  }

  lemma NoneExpired(es: seq<Entry>, now: int)
    ensures AllExpired(es, 0, now)
  {}

  lemma OneMoreExpired(es: seq<Entry>, e: nat, now: int)
    requires AllExpired(es, e, now) && e < |es| && Expired(es[e].deadline, now)
    ensures AllExpired(es, e + 1, now)
  {}

  lemma SuffixRest(es: seq<Entry>, e: nat)
    requires e < |es|
    ensures es[e..][1..] == es[e + 1..]
  {}

  lemma PrefixIs(es: seq<Entry>, now: int, e: nat)
    requires AllExpired(es, e, now)
    requires e < |es| ==> !Expired(es[e].deadline, now)
    ensures ExpiredPrefix(es, now) == e
  {
    var n := ExpiredPrefix(es, now);
  }

  lemma TableFacts(tab: seq<Entry32>, home: (nat, nat) -> nat, tbits: nat,
                   order: seq<nat>, key: seq<nat>, index: map<nat, nat>)
    requires Tabled(tab, home, tbits, order, key, index)
    ensures IsHome(home) && |tab| == Pow2(tbits) && 1 <= tbits <= 31
  {}

  lemma EmptyLists(tab: seq<Entry32>, home: (nat, nat) -> nat, tbits: nat, prev: seq<nat>, next: seq<nat>,
                   key: seq<nat>, size: nat)
    requires |prev| == |next| <= NIL && 1 <= tbits <= 31 && Pow2(tbits) == |tab| && Lookup(tab, home, tbits, map[])
    ensures Threaded([], prev, next, NIL, NIL) && Slots([], [], next, NIL, 0, 0, size)
    ensures Tabled(tab, home, tbits, [], key, map[])
  {
    hide Lookup;
  }

  lemma NoEntries(key: seq<nat>, val: seq<nat>, dl: seq<int>)
    requires |key| == |val| == |dl|
    ensures Below([], |key|) && EntriesOf([], key, val, dl) == []
  {}

  lemma CountListed(order: seq<nat>, chain: seq<nat>, next: seq<nat>, free: nat, limit: nat, n: nat, size: nat)
    requires Slots(order, chain, next, free, limit, n, size)
    ensures n == |order|
  {}

  lemma ResizeRefused(m: Model)
    ensures LruModel.Resize(m, 0) == (m, false, 0)
  {}

  lemma ResizeIs(m: Model, cap: nat, ev: nat)
    requires cap > 0 && ev <= |m.entries| <= cap + ev && (ev == 0 || |m.entries| - ev >= cap)
    ensures LruModel.Resize(m, cap) ==
            (m.(cap := cap, entries := m.entries[ev..],
                metrics := m.metrics.(evictions := m.metrics.evictions + ev)), true, ev)
  {}

  lemma DropFirst(es: seq<Entry>, e: nat)
    requires e < |es|
    ensures Drop(es[e..], 0) == es[e + 1..]
  {}

  lemma SlotBound(order: seq<nat>, size: nat, at: nat)
    requires Below(order, size) && at < |order|
    ensures order[at] < size
  {}

  /** The table and the sequence agree on whether, and where, a key is. */
  lemma Located(g: Layout, key: seq<nat>, val: seq<nat>, dl: seq<int>, k: nat)
    requires Below(g.order, |key|) && Indexed(g.order, key, g.index) && |key| == |val| == |dl|
    ensures var i := IndexOf(EntriesOf(g.order, key, val, dl), k);
            && (i >= 0 <==> k in g.index)
            && (i >= 0 ==> g.order[i] == g.index[k])
  {
    hide IndexOf;
    var es := EntriesOf(g.order, key, val, dl);
    if k in g.index {
      var j :| 0 <= j < |g.order| && g.order[j] == g.index[k];
      assert es[j].key == k;
    }
  }

  lemma IndexOfRest(es: seq<Entry>, k: nat)
    requires es != [] && IndexOf(es, k) < 0
    ensures IndexOf(es[1..], k) < 0
  {}

  lemma TouchPartition(order: seq<nat>, chain: seq<nat>, limit: nat, at: nat)
    requires Partitioned(order, chain, limit) && at < |order|
    ensures Partitioned(Cut(order, at) + [order[at]], chain, limit)
  {
    CutFacts(order, at);
  }

  lemma TouchTabled(tab: seq<Entry32>, home: (nat, nat) -> nat, tbits: nat,
                    order: seq<nat>, key: seq<nat>, index: map<nat, nat>, s: nat, at: nat)
    requires Tabled(tab, home, tbits, order, key, index) && Distinct(order)
    requires at < |order| && s == order[at]
    ensures Tabled(tab, home, tbits, Cut(order, at) + [s], key, index)
  {
    hide Lookup;
    var order' := Cut(order, at) + [s];
    CutFacts(order, at);
    forall i | 0 <= i < |order'|
      ensures order'[i] < |key| && key[order'[i]] in index && index[key[order'[i]]] == order'[i]
    {
      assert order'[i] in order';
      assert order'[i] in order;
    }
  }

  /** Overwriting the entry in slot s and making it the newest. */
  lemma TouchEntries(order: seq<nat>, key: seq<nat>, val: seq<nat>, dl: seq<int>, s: nat, v: nat, d: int, at: nat)
    requires Distinct(order) && Below(order, |key|)
    requires |key| == |val| == |dl| && at < |order| && s == order[at]
    ensures Below(Cut(order, at) + [s], |key|)
    ensures EntriesOf(Cut(order, at) + [s], key, val[s := v], dl[s := d])
            == Drop(EntriesOf(order, key, val, dl), at) + [Entry(key[s], v, d)]
  {
    CutEntries(order, key, val, dl, at);
    forall i | 0 <= i < |order| - 1 ensures Cut(order, at)[i] != s {}
  }

  /** The free chain does not see relinking among listed slots. */
  lemma ChainKept(order: seq<nat>, chain: seq<nat>, next: seq<nat>, next': seq<nat>, free: nat, limit: nat)
    requires Chained(chain, next, free) && Partitioned(order, chain, limit) && SameOutside(order, next, next')
    ensures Chained(chain, next', free)
  {
    forall i | 0 <= i < |chain| ensures next'[chain[i]] == next[chain[i]] {
      assert chain[i] in chain;
    }
  }

  /** Filling the slot s outside the list and then listing it under the new key k. */
  lemma StoreFacts(order: seq<nat>, index: map<nat, nat>, key: seq<nat>, val: seq<nat>, dl: seq<int>,
                   s: nat, k: nat, v: nat, d: int)
    requires Indexed(order, key, index) && |key| == |val| == |dl| && s < |key| && s !in order && k !in index
    ensures Indexed(order, key[s := k], index) && |index| == |order|
    ensures Indexed(order + [s], key[s := k], index[k := s]) && |index[k := s]| == |index| + 1
    ensures EntriesOf(order + [s], key[s := k], val[s := v], dl[s := d])
            == EntriesOf(order, key, val, dl) + [Entry(k, v, d)]
  {
    forall i | 0 <= i < |order| ensures order[i] != s { assert order[i] in order; }
    assert Indexed(order, key[s := k], index);
    IndexedSnoc(order, key[s := k], index, s);
  }

  method Regrow<T>(a: array<T>, m: nat, z: T) returns (b: array<T>)
    requires a.Length <= m
    ensures fresh(b) && b.Length == m && b[..a.Length] == a[..]
  {
    b := new T[m](_ => z);
    forall i | 0 <= i < a.Length { b[i] := a[i]; }
  }

  lemma ChainPop(order: seq<nat>, chain: seq<nat>, next: seq<nat>, free: nat, limit: nat)
    requires Chained(chain, next, free) && Partitioned(order, chain, limit) && free != NIL
    ensures chain != [] && free == chain[0] && free < |next| && free !in order
    ensures Chained(chain[1..], next, next[free])
    ensures Partitioned(order + [free], chain[1..], limit)
  {
    var rest := chain[1..];
    assert next[chain[0]] == After(chain, 0);
    assert chain[0] in chain;
    forall i | 0 <= i < |rest| ensures rest[i] < |next| && next[rest[i]] == After(rest, i) {
      assert rest[i] == chain[i + 1];
      assert next[chain[i + 1]] == After(chain, i + 1);
    }
    forall x | x in chain ensures x == chain[0] || x in rest {}
    forall x | x in rest ensures x in chain && x != chain[0] {}
    forall x | 0 <= x < limit ensures x in order + [free] || x in rest {}
  }

  lemma ChainEmpty(order: seq<nat>, chain: seq<nat>, next: seq<nat>, free: nat, limit: nat)
    requires Chained(chain, next, free) && Partitioned(order, chain, limit) && free == NIL
    ensures chain == [] && limit !in order && Partitioned(order + [limit], chain, limit + 1)
  {
    forall x | 0 <= x < limit + 1 ensures x in order + [limit] { assert (order + [limit])[|order|] == limit; }
  }

  lemma GrownLists(order: seq<nat>, chain: seq<nat>, prev: seq<nat>, next: seq<nat>, prev': seq<nat>, next': seq<nat>,
                   head: nat, tail: nat, free: nat)
    requires Threaded(order, prev, next, head, tail) && Chained(chain, next, free)
    requires prev <= prev' && next <= next' && |prev'| == |next'| <= NIL
    ensures Threaded(order, prev', next', head, tail) && Chained(chain, next', free)
  {}

  lemma GrownEntries(order: seq<nat>, index: map<nat, nat>, key: seq<nat>, val: seq<nat>, dl: seq<int>,
                     key': seq<nat>, val': seq<nat>, dl': seq<int>)
    requires Indexed(order, key, index) && |key| == |val| == |dl| && |key'| == |val'| == |dl'|
    requires key <= key' && val <= val' && dl <= dl'
    ensures Indexed(order, key', index)
    ensures EntriesOf(order, key', val', dl') == EntriesOf(order, key, val, dl)
  {}

  lemma GrownTabled(tab: seq<Entry32>, home: (nat, nat) -> nat, tbits: nat, order: seq<nat>, index: map<nat, nat>,
                    key: seq<nat>, val: seq<nat>, dl: seq<int>, key': seq<nat>, val': seq<nat>, dl': seq<int>)
    requires Tabled(tab, home, tbits, order, key, index) && |key| == |val| == |dl| && |key'| == |val'| == |dl'|
    requires key <= key' && val <= val' && dl <= dl'
    ensures Tabled(tab, home, tbits, order, key', index)
    ensures Below(order, |key|) && Below(order, |key'|)
    ensures EntriesOf(order, key', val', dl') == EntriesOf(order, key, val, dl)
  {
    hide Lookup, EntriesOf;
    GrownEntries(order, index, key, val, dl, key', val', dl');
  }

  lemma IndexedCount(order: seq<nat>, key: seq<nat>, index: map<nat, nat>)
    requires Indexed(order, key, index)
    ensures |index| == |order|
  {}

  lemma IndexedAt(order: seq<nat>, key: seq<nat>, index: map<nat, nat>, at: nat)
    requires Indexed(order, key, index) && at < |order|
    ensures Below(order, |key|)
    ensures order[at] < |key| && key[order[at]] in index && index[key[order[at]]] == order[at]
    ensures |index| == |order|
  {}

  lemma BelowAll(s: seq<nat>, t: seq<nat>, limit: nat)
    requires Below(s, limit) && forall x :: x in t ==> x in s
    ensures Below(t, limit)
  {
    forall i | 0 <= i < |t| ensures t[i] < limit { assert t[i] in t; }
  }

  lemma CutIndexed(order: seq<nat>, key: seq<nat>, index: map<nat, nat>, at: nat)
    requires Indexed(order, key, index) && Distinct(order) && at < |order|
    ensures var k := key[order[at]];
            k in index && |index - {k}| == |index| - 1 && Indexed(Cut(order, at), key, index - {k})
  {
    hide Cut, Distinct;
    var k, order' := key[order[at]], Cut(order, at);
    MapSizeLess(index, k);
    CutFacts(order, at);
    BelowAll(order, order', |key|);
    forall i | 0 <= i < |order'|
      ensures order'[i] < |key| && key[order'[i]] != k
      ensures key[order'[i]] in index && index[key[order'[i]]] == order'[i]
    {
      assert order'[i] in order';
      var j :| 0 <= j < |order| && order[j] == order'[i];
    }
    forall q | q in index - {k} ensures index[q] in order' {}
  }

  /** What the removal of position at relies on. */
  lemma RemovalReady(g: Layout, tab: seq<Entry32>, home: (nat, nat) -> nat, tbits: nat, key: seq<nat>, val: seq<nat>,
                     dl: seq<int>, next: seq<nat>, free: nat, limit: nat, n: nat, size: nat, at: nat)
    requires Tabled(tab, home, tbits, g.order, key, g.index) && Slots(g.order, g.chain, next, free, limit, n, size)
    requires |key| == |val| == |dl| == size && at < |g.order|
    ensures var s, order' := g.order[at], Cut(g.order, at);
            && s < size && key[s] in g.index && n > 0 && Distinct(g.order)
            && Chained(g.chain, next, free) && Partitioned(g.order, g.chain, limit)
            && s !in order' && Below(g.order, |key|) && Below(order', |key|)
            && EntriesOf(order', key, val, dl) == Drop(EntriesOf(g.order, key, val, dl), at)
  {
    hide Drop, EntriesOf, Lookup;
    IndexedAt(g.order, key, g.index, at);
    CutPartition(g.order, g.chain, limit, at);
    CutEntries(g.order, key, val, dl, at);
  }

  lemma CutTabled(tab: seq<Entry32>, tab': seq<Entry32>, home: (nat, nat) -> nat, tbits: nat,
                  order: seq<nat>, key: seq<nat>, index: map<nat, nat>, at: nat)
    requires Tabled(tab, home, tbits, order, key, index) && Distinct(order) && at < |order| && |tab'| == |tab|
    requires order[at] < |key| && Lookup(tab', home, tbits, index - {key[order[at]]})
    ensures Tabled(tab', home, tbits, Cut(order, at), key, index - {key[order[at]]})
  {
    hide Lookup, Indexed;
    CutIndexed(order, key, index, at);
  }

  lemma CutSlots(order: seq<nat>, chain: seq<nat>, next: seq<nat>, next': seq<nat>, free: nat, limit: nat, n: nat,
                 size: nat, at: nat)
    requires Slots(order, chain, next, free, limit, n, size) && at < |order|
    requires Chained([order[at]] + chain, next', order[at])
    ensures Slots(Cut(order, at), [order[at]] + chain, next', order[at], limit, n - 1, size)
  {
    hide Chained, Partitioned;
    CutPartition(order, chain, limit, at);
  }

  lemma CutPartition(order: seq<nat>, chain: seq<nat>, limit: nat, at: nat)
    requires Partitioned(order, chain, limit) && at < |order|
    ensures Partitioned(Cut(order, at), [order[at]] + chain, limit)
    ensures order[at] !in Cut(order, at)
  {
    CutFacts(order, at);
  }

  lemma CutEntries(order: seq<nat>, key: seq<nat>, val: seq<nat>, dl: seq<int>, at: nat)
    requires |key| == |val| == |dl| && at < |order| && Below(order, |key|)
    ensures Below(Cut(order, at), |key|)
    ensures EntriesOf(Cut(order, at), key, val, dl) == Drop(EntriesOf(order, key, val, dl), at)
  {}

  /** Pushing s on the free chain, when next changed only on listed slots since the chain was read. */
  lemma ChainPush(order: seq<nat>, chain: seq<nat>, limit: nat, next: seq<nat>, next': seq<nat>, free: nat, at: nat)
    requires Chained(chain, next, free) && Partitioned(order, chain, limit)
    requires SameOutside(order, next, next') && at < |order| && order[at] < |next|
    ensures var s := order[at]; Chained([s] + chain, next'[s := free], s)
  {
    var s := order[at];
    var chain', n' := [s] + chain, next'[s := free];
    forall i | 0 <= i < |chain'| ensures n'[chain'[i]] == After(chain', i) {
      if i > 0 {
        assert chain[i - 1] in chain;
        assert next[chain[i - 1]] == After(chain, i - 1);
      }
    }
  }

  /** lru.c:69-74. */
  method NewTable(bits: nat, home: (nat, nat) -> nat, ghost t0: seq<Entry32>, ghost bits0: nat, ghost m: map<nat, nat>)
    returns (t: array<Entry32>)
    requires Lookup(t0, home, bits0, m)
    ensures fresh(t) && t.Length == Pow2(bits) && Lookup(t[..], home, bits, map[])
  {
    t := new Entry32[Pow2(bits)](_ => Entry32(0, NIL));
    EmptyLookup(t[..], home, bits);
  }

  /** lru.c:85-91. */
  method TabPutRaw(t: array<Entry32>, bits: nat, k: nat, s: nat, home: (nat, nat) -> nat, ghost m: map<nat, nat>)
    requires bits <= 31 && k !in m && s != NIL && |m| < t.Length == Pow2(bits)
    requires Lookup(t[..], home, bits, m)
    modifies t
    ensures Lookup(t[..], home, bits, m[k := s])
  {
    hide Table, Binds, Probed, Dist, Next, Pow2, Masked;
    var i: nat := home(k, bits);
    ghost var h := KeyHome(home, bits);
    ProbeStart(SlotCells(t[..]), i, k);
    ghost var e := LookupStops(t[..], home, bits, m);
    while t[i].slot != NIL
      invariant i < t.Length && t[..] == old(t[..])
      invariant Probed(SlotCells(t[..]), h(k), k, i)
      decreases Dist(t.Length, i, e)
    {
      ProbeEndIfHit(SlotCells(t[..]), h, m, k, i);
      ProbeStep(SlotCells(t[..]), h(k), k, i, e);
      MaskedNext(bits, i);
      i := Masked(i + 1, bits);
    }
    LookupStore(t[..], home, bits, m, k, s, i);
    t[i] := t[i].(key := k);
    t[i] := t[i].(slot := s);
    assert t[..] == old(t[..])[i := Entry32(k, s)];
  }

  lemma IndexedSlots(order: seq<nat>, key: seq<nat>, index: map<nat, nat>)
    requires Indexed(order, key, index)
    ensures forall k :: k in index ==> index[k] < |key|
  {}

  lemma IndexedEmpty(key: seq<nat>)
    ensures Indexed([], key, map[])
  {}

  lemma IndexedFresh(order: seq<nat>, key: seq<nat>, index: map<nat, nat>, done: map<nat, nat>, p: nat)
    requires Indexed(order, key, index) && Distinct(order) && p < |order| && Indexed(order[..p], key, done)
    ensures key[order[p]] !in done && |done| < |index|
  {}

  /** A slot added at the end of the list under a new key. */
  lemma IndexedSnoc(order: seq<nat>, key: seq<nat>, index: map<nat, nat>, s: nat)
    requires Indexed(order, key, index) && s < |key| && key[s] !in index
    ensures Indexed(order + [s], key, index[key[s] := s])
  {
    var order', index' := order + [s], index[key[s] := s];
    forall i | 0 <= i < |order'|
      ensures order'[i] < |key| && key[order'[i]] in index' && index'[key[order'[i]]] == order'[i]
    {
      if i < |order| { assert order'[i] == order[i]; }
    }
    forall q | q in index' ensures index'[q] in order' && key[index'[q]] == q {
      if q == key[s] { assert order'[|order|] == s; } else { SnocIn(order, s, index[q]); }
    }
    assert index'.Keys == index.Keys + {key[s]};
  }

  lemma SnocIn(s: seq<nat>, x: nat, y: nat)
    requires y in s
    ensures y in s + [x]
  {}

  lemma IndexedGrows(order: seq<nat>, key: seq<nat>, index: map<nat, nat>, done: map<nat, nat>, p: nat)
    requires Indexed(order, key, index) && Distinct(order) && p < |order| && Indexed(order[..p], key, done)
    ensures var k := key[order[p]];
            && k !in done && |done| < |index|
            && Indexed(order[..p + 1], key, done[k := order[p]])
  {
    IndexedFresh(order, key, index, done, p);
    IndexedSnoc(order[..p], key, done, order[p]);
    assert order[..p + 1] == order[..p] + [order[p]];
  }

  lemma IndexedUnique(order: seq<nat>, key: seq<nat>, a: map<nat, nat>, b: map<nat, nat>)
    requires Indexed(order, key, a) && Indexed(order, key, b)
    ensures a == b
  {
    forall k | k in a ensures k in b && b[k] == a[k] { assert a[k] in order; }
    forall k | k in b ensures k in a { assert b[k] in order; }
  }

}
