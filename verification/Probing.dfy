/** Linear probing with backward-shift deletion, as used by benchmarks/native/hash_table.c and
    by the lookup table of benchmarks/native/lru.c. The home function is arbitrary. */
module Probing {
  import opened Arith

  datatype Cell = Free | Used(key: nat, val: nat)

  /** A uint32 expression `x & mask` with mask = 2^bits - 1: wrap to 32 bits, keep the low bits. */
  function Masked(x: int, bits: nat): (r: nat)
    ensures r < Pow2(bits)
  {
    (x % 0x1_0000_0000) % Pow2(bits)
  }

  /** The cyclic successor and the cyclic distance of bucket indices. */
  function Next(n: nat, i: nat): (j: nat)
    requires i < n
    ensures j < n
  {
    if i + 1 == n then 0 else i + 1
  }

  function Dist(n: nat, a: nat, b: nat): (d: nat)
    requires a < n && b < n
    ensures d < n
    ensures d == 0 <==> a == b
  {
    if a <= b then b - a else b + n - a
  }

  lemma MaskedIsMod(x: int, bits: nat)
    requires bits <= 32
    ensures Masked(x, bits) == x % Pow2(bits)
  {
    Pow2Mono(bits, 32);
    assert Pow2(32) == 0x1_0000_0000 by { Pow2Values(); }
    ModMod(x, Pow2(bits), Pow2(32 - bits));
  }

  /** The wrapped and masked index arithmetic of the C code is Next and Dist. */
  lemma MaskedNext(bits: nat, i: nat)
    requires bits <= 32 && i < Pow2(bits)
    ensures Masked(i + 1, bits) == Next(Pow2(bits), i)
  {
    hide Pow2, Masked;
    MaskedIsMod(i + 1, bits);
    var p := Pow2(bits);
    if i + 1 == p { DivModUnique(p, p, 1, 0); } else { DivModUnique(i + 1, p, 0, i + 1); }
  }

  lemma MaskedDist(bits: nat, a: nat, b: nat)
    requires bits <= 32 && a < Pow2(bits) && b < Pow2(bits)
    ensures Masked(b - a, bits) == Dist(Pow2(bits), a, b)
  {
    hide Pow2, Masked;
    MaskedIsMod(b - a, bits);
    var p := Pow2(bits);
    if a <= b { DivModUnique(b - a, p, 0, b - a); } else { DivModUnique(b - a, p, -1, b + p - a); }
  }

  // ---- the invariant ----

  ghost predicate InRange(home: nat -> nat, n: nat)
  {
    forall k :: home(k) < n
  }

  /** The used cells, `skip` left out, hold distinct keys and exactly the bindings of m. */
  ghost predicate Binds(c: seq<Cell>, skip: int, m: map<nat, nat>)
  {
    && (forall x :: 0 <= x < |c| && x != skip && c[x].Used? ==> c[x].key in m && m[c[x].key] == c[x].val)
    && (forall k :: k in m ==> exists x :: 0 <= x < |c| && x != skip && c[x].Used? && c[x].key == k)
    && (forall x, y :: 0 <= x < |c| && 0 <= y < |c| && x != skip && y != skip && c[x].Used? && c[y].Used?
             && c[x].key == c[y].key
          ==> x == y)
  }

  /** No free cell lies cyclically in [h, x). */
  ghost predicate NoGap(c: seq<Cell>, h: nat, x: nat)
    requires h < |c| && x < |c|
  {
    forall y :: 0 <= y < |c| && Dist(|c|, h, y) < Dist(|c|, h, x) ==> c[y].Used?
  }

  ghost predicate Table(c: seq<Cell>, home: nat -> nat, m: map<nat, nat>)
  {
    && InRange(home, |c|)
    && Binds(c, -1, m)
    && (forall x :: 0 <= x < |c| && c[x].Used? ==> NoGap(c, home(c[x].key), x))
  }

  // ---- counting ----

  /** The keys of the first i cells. */
  function CellKeys(c: seq<Cell>, i: nat): set<nat>
    requires i <= |c| && forall x :: 0 <= x < |c| ==> c[x].Used?
  {
    if i == 0 then {} else CellKeys(c, i - 1) + {c[i - 1].key}
  }

  lemma {:induction false} KeyAmong(c: seq<Cell>, i: nat, k: nat) returns (x: nat)
    requires i <= |c| && (forall x :: 0 <= x < |c| ==> c[x].Used?) && k in CellKeys(c, i)
    ensures x < i && c[x].key == k
  {
    if k == c[i - 1].key { x := i - 1; } else { x := KeyAmong(c, i - 1, k); }
  }

  lemma {:induction false} PrefixKeys(c: seq<Cell>, i: nat, m: map<nat, nat>)
    requires i <= |c| && Binds(c, -1, m)
    requires forall x :: 0 <= x < |c| ==> c[x].Used?
    ensures |CellKeys(c, i)| == i && CellKeys(c, i) <= m.Keys
  {
    hide Binds;
    if i > 0 {
      PrefixKeys(c, i - 1, m);
      KeyFresh(c, i - 1, m);
    }
  }

  lemma KeyFresh(c: seq<Cell>, i: nat, m: map<nat, nat>)
    requires i < |c| && Binds(c, -1, m) && forall x :: 0 <= x < |c| ==> c[x].Used?
    ensures c[i].key !in CellKeys(c, i) && c[i].key in m
  {
    hide CellKeys;
    if c[i].key in CellKeys(c, i) { var x := KeyAmong(c, i, c[i].key); }
  }

  /** A table with fewer bindings than cells has a free cell, so every probe stops. */
  lemma HasFree(c: seq<Cell>, m: map<nat, nat>)
    requires Binds(c, -1, m) && |m| < |c|
    ensures exists e :: 0 <= e < |c| && c[e].Free?
  {
    if forall x :: 0 <= x < |c| ==> c[x].Used? {
      PrefixKeys(c, |c|, m);
      SubsetSize(CellKeys(c, |c|), m.Keys);
    }
  }

  lemma {:induction false} SubsetSize<T>(a: set<T>, b: set<T>)
    requires a <= b
    ensures |a| <= |b|
  {
    if a != {} {
      var x :| x in a;
      SubsetSize(a - {x}, b - {x});
    }
  }

  // ---- probing ----

  /** A probe for k that started at home(k) has passed the cells before i: all used, none with key k. */
  ghost predicate Probed(c: seq<Cell>, h: nat, k: nat, i: nat)
    requires h < |c| && i < |c|
  {
    forall y :: 0 <= y < |c| && Dist(|c|, h, y) < Dist(|c|, h, i) ==> c[y].Used? && c[y].key != k
  }

  lemma ProbeStart(c: seq<Cell>, h: nat, k: nat)
    requires h < |c|
    ensures Probed(c, h, k, h)
  {}

  lemma ProbeStep(c: seq<Cell>, h: nat, k: nat, i: nat, e: nat)
    requires h < |c| && i < |c| && e < |c| && c[e].Free?
    requires Probed(c, h, k, i) && c[i].Used? && c[i].key != k
    ensures Probed(c, h, k, Next(|c|, i))
    ensures Dist(|c|, Next(|c|, i), e) < Dist(|c|, i, e)
  {}

  /** A probe that ends on a free cell proves absence, one that ends on the key finds its value. */
  lemma ProbeEnd(c: seq<Cell>, home: nat -> nat, m: map<nat, nat>, k: nat, i: nat)
    requires Table(c, home, m) && i < |c| && Probed(c, home(k), k, i)
    requires c[i].Free? || c[i].key == k
    ensures k in m <==> c[i].Used?
    ensures k in m ==> m[k] == c[i].val
  {
    if c[i].Free? {
      forall x | 0 <= x < |c| && c[x].Used? ensures c[x].key != k {
      }
    }
  }

  /** A new key stored in the free cell that ends its probe. */
  lemma PutFree(c: seq<Cell>, home: nat -> nat, m: map<nat, nat>, k: nat, v: nat, i: nat)
    requires Table(c, home, m) && i < |c| && c[i].Free? && Probed(c, home(k), k, i)
    ensures k !in m
    ensures Table(c[i := Used(k, v)], home, m[k := v])
  {
    hide Binds, NoGap, Dist;
    ProbeEnd(c, home, m, k, i);
    var d := c[i := Used(k, v)];
    PutBinds(c, m, k, v, i);
    assert NoGap(d, home(k), i) by { ProbedGap(c, home(k), k, v, i); }
    forall x | 0 <= x < |d| && d[x].Used? ensures NoGap(d, home(d[x].key), x) {
      if x != i { FilledGap(c, home(c[x].key), k, v, i, x); }
    }
  }

  lemma ProbedGap(c: seq<Cell>, h: nat, k: nat, v: nat, i: nat)
    requires h < |c| && i < |c| && Probed(c, h, k, i)
    ensures NoGap(c[i := Used(k, v)], h, i)
  {}

  lemma FilledGap(c: seq<Cell>, h: nat, k: nat, v: nat, i: nat, x: nat)
    requires h < |c| && i < |c| && x < |c| && NoGap(c, h, x)
    ensures NoGap(c[i := Used(k, v)], h, x)
  {}

  lemma PutBinds(c: seq<Cell>, m: map<nat, nat>, k: nat, v: nat, i: nat)
    requires Binds(c, -1, m) && i < |c| && c[i].Free? && k !in m
    ensures Binds(c[i := Used(k, v)], -1, m[k := v])
  {
    var d, m' := c[i := Used(k, v)], m[k := v];
    forall q | q in m' ensures exists x :: 0 <= x < |d| && d[x].Used? && d[x].key == q {
      if q == k {
        assert d[i].key == k;
      } else {
        var x :| 0 <= x < |c| && c[x].Used? && c[x].key == q;
        assert d[x] == c[x];
      }
    }
  }

  /** A present key's value replaced in its cell. */
  lemma PutUsed(c: seq<Cell>, home: nat -> nat, m: map<nat, nat>, k: nat, v: nat, i: nat)
    requires Table(c, home, m) && i < |c| && c[i].Used? && c[i].key == k
    ensures k in m
    ensures Table(c[i := Used(k, v)], home, m[k := v])
  {
    var d, m' := c[i := Used(k, v)], m[k := v];
    forall q | q in m' ensures exists x :: 0 <= x < |d| && d[x].Used? && d[x].key == q {
      var x :| 0 <= x < |c| && c[x].Used? && c[x].key == q;
      assert d[x].key == q;
    }
    forall x | 0 <= x < |d| && d[x].Used? ensures NoGap(d, home(d[x].key), x) {
      assert NoGap(c, home(c[x].key), x);
    }
  }

  lemma EmptyTable(c: seq<Cell>, home: nat -> nat)
    requires InRange(home, |c|) && forall x :: 0 <= x < |c| ==> c[x].Free?
    ensures Table(c, home, map[])
  {}

  // ---- backward-shift deletion ----

  /** Mid-deletion: cell i is a hole that still holds a stale entry, the cells cyclically in (i, j]
      have been scanned, and m is what the other cells hold. Only entries beyond j may still have
      the hole between their home and themselves. */
  ghost predicate Holed(c: seq<Cell>, home: nat -> nat, i: nat, j: nat, m: map<nat, nat>)
  {
    && InRange(home, |c|) && i < |c| && j < |c| && c[i].Used?
    && Binds(c, i, m)
    && (forall y :: 0 <= y < |c| && Dist(|c|, i, y) <= Dist(|c|, i, j) ==> c[y].Used?)
    && (forall x :: 0 <= x < |c| && x != i && c[x].Used? ==> NoGap(c, home(c[x].key), x))
    && (forall x :: 0 <= x < |c| && x != i && c[x].Used? && Dist(|c|, i, x) <= Dist(|c|, i, j)
          ==> !Crosses(|c|, home(c[x].key), i, x))
  }

  /** The hole i lies cyclically in [h, x): the entry at x may be moved back to i. */
  predicate Crosses(n: nat, h: nat, i: nat, x: nat)
    requires h < n && i < n && x < n
  {
    Dist(n, h, x) >= Dist(n, i, x)
  }

  lemma CrossesMeans(n: nat, h: nat, i: nat, x: nat)
    requires h < n && i < n && x < n && i != x
    ensures Crosses(n, h, i, x) <==> Dist(n, h, i) < Dist(n, h, x)
  {}

  lemma HoleOpens(c: seq<Cell>, home: nat -> nat, m: map<nat, nat>, i: nat)
    requires Table(c, home, m) && i < |c| && c[i].Used?
    ensures c[i].key in m
    ensures Holed(c, home, i, i, m - {c[i].key})
  {
    var k := c[i].key;
    var m' := m - {k};
    forall q | q in m' ensures exists x :: 0 <= x < |c| && x != i && c[x].Used? && c[x].key == q {
      var x :| 0 <= x < |c| && c[x].Used? && c[x].key == q;
    }
  }

  /** The entry at the next cell stays: its home is past the hole. */
  lemma HoleStays(c: seq<Cell>, home: nat -> nat, m: map<nat, nat>, i: nat, j: nat, e: nat)
    requires Holed(c, home, i, j, m) && e < |c| && c[e].Free?
    requires c[Next(|c|, j)].Used?
    requires !Crosses(|c|, home(c[Next(|c|, j)].key), i, Next(|c|, j))
    ensures Next(|c|, j) != i
    ensures Holed(c, home, i, Next(|c|, j), m)
    ensures Dist(|c|, Next(|c|, j), e) < Dist(|c|, j, e)
  {
    hide Binds, NoGap, Crosses;
    HoleScans(c, home, m, i, j, e);
    var n, j' := |c|, Next(|c|, j);
    forall y: nat | y < n && Dist(n, i, y) <= Dist(n, i, j') ensures y == j' || Dist(n, i, y) <= Dist(n, i, j) {
      NextInterval(n, i, j, y);
    }
  }

  /** Moving on by one adds only that cell to what lies up to j. */
  lemma NextInterval(n: nat, i: nat, j: nat, y: nat)
    requires i < n && j < n && y < n && Next(n, j) != i && Dist(n, i, y) <= Dist(n, i, Next(n, j))
    ensures y == Next(n, j) || Dist(n, i, y) <= Dist(n, i, j)
  {}

  lemma HoleScans(c: seq<Cell>, home: nat -> nat, m: map<nat, nat>, i: nat, j: nat, e: nat)
    requires Holed(c, home, i, j, m) && e < |c| && c[e].Free?
    ensures Next(|c|, j) != i && e != i
    ensures Dist(|c|, Next(|c|, j), e) < Dist(|c|, j, e)
  {
    hide Binds, NoGap, Crosses;
  }

  lemma MoveBinds(c: seq<Cell>, m: map<nat, nat>, i: nat, j: nat)
    requires i < |c| && j < |c| && i != j && c[i].Used? && c[j].Used? && Binds(c, i, m)
    ensures Binds(c[i := c[j]], j, m)
  {
    var d := c[i := c[j]];
    forall q | q in m ensures exists x :: 0 <= x < |d| && x != j && d[x].Used? && d[x].key == q {
      var x :| 0 <= x < |c| && x != i && c[x].Used? && c[x].key == q;
      if x == j { assert d[i].key == q; } else { assert d[x] == c[x]; }
    }
  }

  /** Moving a used cell's entry into another used cell changes no cell's occupancy. */
  lemma MoveGap(c: seq<Cell>, i: nat, j: nat, h: nat, x: nat)
    requires i < |c| && j < |c| && h < |c| && x < |c| && c[i].Used? && c[j].Used?
    requires NoGap(c, h, x)
    ensures NoGap(c[i := c[j]], h, x)
  {}

  /** The entry at the next cell moves back into the hole, and the hole moves to that cell. */
  lemma HoleMoves(c: seq<Cell>, home: nat -> nat, m: map<nat, nat>, i: nat, j: nat, e: nat)
    requires Holed(c, home, i, j, m) && e < |c| && c[e].Free?
    requires c[Next(|c|, j)].Used?
    requires Crosses(|c|, home(c[Next(|c|, j)].key), i, Next(|c|, j))
    ensures Next(|c|, j) != i && e != i
    ensures var j' := Next(|c|, j); Holed(c[i := c[j']], home, j', j', m)
    ensures Dist(|c|, Next(|c|, j), e) < Dist(|c|, j, e)
  {
    hide Binds, NoGap, Dist, Next;
    var n, j' := |c|, Next(|c|, j);
    HoleScans(c, home, m, i, j, e);
    var d := c[i := c[j']];
    MoveBinds(c, m, i, j');
    forall x | 0 <= x < n && x != j' && d[x].Used? ensures NoGap(d, home(d[x].key), x) {
      if x == i {
        var h := home(c[j'].key);
        CrossesMeans(n, h, i, j');
        GapShrinks(c, h, i, j');
        MoveGap(c, i, j', h, i);
      } else {
        MoveGap(c, i, j', home(c[x].key), x);
      }
    }
  }

  lemma GapShrinks(c: seq<Cell>, h: nat, i: nat, x: nat)
    requires h < |c| && i < |c| && x < |c| && NoGap(c, h, x) && Dist(|c|, h, i) <= Dist(|c|, h, x)
    ensures NoGap(c, h, i)
  {}

  /** When the cell after j is free, no other entry has the hole on its probe path. */
  lemma NothingCrosses(c: seq<Cell>, home: nat -> nat, m: map<nat, nat>, i: nat, j: nat, x: nat)
    requires Holed(c, home, i, j, m) && c[Next(|c|, j)].Free?
    requires x < |c| && x != i && c[x].Used?
    ensures !Crosses(|c|, home(c[x].key), i, x)
  {
    assert NoGap(c, home(c[x].key), x);
  }

  lemma CloseBinds(c: seq<Cell>, m: map<nat, nat>, i: nat)
    requires i < |c| && Binds(c, i, m)
    ensures Binds(c[i := Free], -1, m)
  {
    var d := c[i := Free];
    forall q | q in m ensures exists x :: 0 <= x < |d| && x != -1 && d[x].Used? && d[x].key == q {
      var x :| 0 <= x < |c| && x != i && c[x].Used? && c[x].key == q;
      assert d[x] == c[x];
    }
  }

  /** The next cell is free: nothing reaches across the hole any more, so it can be emptied. */
  lemma HoleCloses(c: seq<Cell>, home: nat -> nat, m: map<nat, nat>, i: nat, j: nat)
    requires Holed(c, home, i, j, m) && c[Next(|c|, j)].Free?
    ensures Table(c[i := Free], home, m)
  {
    hide Binds, NoGap, Dist, Next;
    var d := c[i := Free];
    CloseBinds(c, m, i);
    forall x | 0 <= x < |d| && d[x].Used? ensures NoGap(d, home(d[x].key), x) {
      NothingCrosses(c, home, m, i, j, x);
      ClosedGap(c, home(c[x].key), i, x);
    }
  }

  /** Emptying a cell that does not lie between h and x. */
  lemma ClosedGap(c: seq<Cell>, h: nat, i: nat, x: nat)
    requires h < |c| && i < |c| && x < |c| && i != x && NoGap(c, h, x) && !Crosses(|c|, h, i, x)
    ensures NoGap(c[i := Free], h, x)
  {
    CrossesMeans(|c|, h, i, x);
  }

  // ---- the same steps in the masked arithmetic of the C code, on a table of 2^bits cells ----

  /** Writing a binding for k into the cell where the probe for k ended. */
  lemma Store(c: seq<Cell>, home: nat -> nat, m: map<nat, nat>, k: nat, v: nat, i: nat)
    requires Table(c, home, m) && i < |c| && Probed(c, home(k), k, i)
    requires c[i].Free? || c[i].key == k
    ensures Table(c[i := Used(k, v)], home, m[k := v])
    ensures c[i].Used? <==> k in m
    ensures |m[k := v]| == if k in m then |m| else |m| + 1
  {
    if c[i].Free? {
      PutFree(c, home, m, k, v, i);
    } else {
      PutUsed(c, home, m, k, v, i);
      assert m[k := v].Keys == m.Keys;
    }
  }

  /** One scan step of the deletion loop: the entry at j' either moves back into the hole at i,
      leaving the hole at j', or stays. */
  lemma DeleteScans(c: seq<Cell>, home: nat -> nat, bits: nat, i: nat, j: nat, m: map<nat, nat>, e: nat)
    requires |c| == Pow2(bits) && bits <= 32 && j < |c| && e < |c| && c[e].Free?
    requires Holed(c, home, i, j, m)
    requires c[Masked(j + 1, bits)].Used?
    ensures var j' := Masked(j + 1, bits);
            && i < |c| && j' < |c| && j' != i && e != i
            && Dist(|c|, j', e) < Dist(|c|, j, e)
            && if Masked(j' - home(c[j'].key), bits) >= Masked(j' - i, bits)
               then Holed(c[i := c[j']], home, j', j', m)
               else Holed(c, home, i, j', m)
  {
    hide Dist, Pow2, Binds, Next, Masked;
    MaskedNext(bits, j);
    var j' := Masked(j + 1, bits);
    HoleScans(c, home, m, i, j, e);
    var h := home(c[j'].key);
    MaskedDist(bits, h, j');
    MaskedDist(bits, i, j');
    if Masked(j' - h, bits) >= Masked(j' - i, bits) {
      HoleMoves(c, home, m, i, j, e);
    } else {
      HoleStays(c, home, m, i, j, e);
    }
  }

  lemma DeleteEnds(c: seq<Cell>, home: nat -> nat, bits: nat, i: nat, j: nat, m: map<nat, nat>)
    requires |c| == Pow2(bits) && bits <= 32 && j < |c|
    requires Holed(c, home, i, j, m)
    requires c[Masked(j + 1, bits)].Free?
    ensures i < |c| && Table(c[i := Free], home, m)
  {
    MaskedNext(bits, j);
    HoleCloses(c, home, m, i, j);
  }

  lemma MapSizeLess(m: map<nat, nat>, k: nat)
    requires k in m
    ensures |m - {k}| == |m| - 1
  {
    assert (m - {k}).Keys == m.Keys - {k};
  }

  lemma MapMinusAbsent(m: map<nat, nat>, k: nat)
    requires k !in m
    ensures m - {k} == m
  {}
}
