/** The reference list algorithms of the Curve25519 field on lists of limbs, radix 2^17, and their
    values: what the generated straight-line code of tools/gen_fe.py must compute. */
module Limbs {
  import opened Arith
  import opened Sequences

  const R: nat := 0x2_0000
  const N: nat := 15

  function Rp(n: nat): (p: nat)
    ensures p > 0
  {
    if n == 0 then 1 else R * Rp(n - 1)
  }

  /** p = 2^255 - 19, in 15 limbs of 17 bits. */
  function P(): nat
    ensures P() + 19 == Rp(15)
  {
    Rp(15) - 19
  }

  lemma {:induction false} RpPow(n: nat)
    ensures Rp(n) == Pow2(17 * n)
  {
    if n == 0 { return; }
    RpPow(n - 1);
    RpNext(n - 1);
  }

  lemma RpNext(n: nat)
    requires Rp(n) == Pow2(17 * n)
    ensures Rp(n + 1) == Pow2(17 * (n + 1))
  {
    hide Pow2;
    Pow2Values();
    Pow2Add(17, 17 * n);
  }

  lemma PrimeLiteral()
    ensures P() == Pow2(255) - 19
  {
    hide Pow2, Rp;
    RpPow(15);
  }

  /** The little-endian value of a list of limbs. */
  function Lv(xs: seq<nat>): nat {
    if xs == [] then 0 else xs[0] + R * Lv(xs[1..])
  }

  function AddN(xs: seq<nat>, ys: seq<nat>): seq<nat>
    decreases |xs|
  {
    if xs == [] then ys else if ys == [] then xs else [xs[0] + ys[0]] + AddN(xs[1..], ys[1..])
  }

  function ScaleN(xs: seq<nat>, k: nat): (r: seq<nat>)
    ensures |r| == |xs|
    ensures forall i :: 0 <= i < |xs| ==> r[i] == xs[i] * k
  {
    seq(|xs|, i requires 0 <= i < |xs| => xs[i] * k)
  }

  /** The product of two polynomials in R. */
  function MulN(xs: seq<nat>, ys: seq<nat>): seq<nat>
    decreases |xs|
  {
    if xs == [] || ys == [] then []
    else [xs[0] * ys[0]] + AddN(ScaleN(ys[1..], xs[0]), MulN(xs[1..], ys))
  }

  /** 2^255 = 19: the limbs from the 15th on, times 19, onto the first ones. */
  function FoldN(zs: seq<nat>): seq<nat>
    requires |zs| >= N
  {
    AddN(zs[..N], ScaleN(zs[N..], 19))
  }

  /** x + k - y limb by limb; k is 8 p spread over the limbs. */
  function SubN(xs: seq<nat>, ys: seq<nat>, ks: seq<nat>): (r: seq<nat>)
    requires |xs| == |ys| == |ks|
    ensures |r| == |xs|
  {
    seq(|xs|, i requires 0 <= i < |xs| => if xs[i] + ks[i] >= ys[i] then xs[i] + ks[i] - ys[i] else 0)
  }

  /** n limbs 8 R - 8. */
  function Nines(n: nat): (r: seq<nat>)
    ensures |r| == n && forall i :: 0 <= i < n ==> r[i] == 8 * R - 8
  {
    seq(n, i => 8 * R - 8)
  }

  function EightP(): (r: seq<nat>)
    ensures |r| == N
  {
    [8 * R - 152] + Nines(14)
  }

  /** The carry chain: limbs below R and the carry out. */
  function CarryN(xs: seq<nat>, c: nat): (seq<nat>, nat)
    decreases |xs|
  {
    if xs == [] then ([], c)
    else
      var (rest, out) := CarryN(xs[1..], (xs[0] + c) / R);
      ([(xs[0] + c) % R] + rest, out)
  }

  /** One chained pass; the carry out of the top limb returns times 19. */
  function PassN(xs: seq<nat>): seq<nat>
  {
    var (ls, c) := CarryN(xs, 0);
    if |ls| < 2 then ls else
    var t := ls[0] + c * 19;
    [t % R, ls[1] + t / R] + ls[2..]
  }

  /** Every carry moves one limb up at once. */
  function CarriesN(xs: seq<nat>, c: nat): (seq<nat>, nat)
    decreases |xs|
  {
    if xs == [] then ([], c)
    else
      var (rest, out) := CarriesN(xs[1..], xs[0] / R);
      ([xs[0] % R + c] + rest, out)
  }

  function ParallelN(xs: seq<nat>): seq<nat>
    requires xs != []
  {
    var (rest, q) := CarriesN(xs[1..], xs[0] / R);
    [xs[0] % R + q * 19] + rest
  }

  // ---- values ----

  /** Equal modulo p. */
  ghost predicate Same(a: int, b: int) {
    exists k: int :: a == b + k * P()
  }

  lemma SameBy(a: int, b: int, k: int)
    requires a == b + k * P()
    ensures Same(a, b)
  {}

  lemma SameMod(a: int, b: int)
    requires Same(a, b)
    ensures P() > 0 && a % P() == b % P()
  {
    PositiveP();
    var k :| a == b + k * P();
    ModAddMultiple(b, k, P());
  }

  lemma PositiveP()
    ensures P() > 1
  {}

  lemma SameTrans(a: int, b: int, c: int)
    requires Same(a, b) && Same(b, c)
    ensures Same(a, c)
  {
    hide P;
    var k :| a == b + k * P();
    var l :| b == c + l * P();
    SameBy(a, c, k + l);
  }

  lemma SameMul(a: int, b: int, c: int, d: int)
    requires Same(a, b) && Same(c, d)
    ensures Same(a * c, b * d)
  {
    hide P;
    var k :| a == b + k * P();
    var l :| c == d + l * P();
    MulCross(a, b, c, d, k, l, P());
    SameBy(a * c, b * d, k * c + b * l);
  }

  lemma MulCross(a: int, b: int, c: int, d: int, k: int, l: int, p: int)
    requires a == b + k * p && c == d + l * p
    ensures a * c == b * d + (k * c + b * l) * p
  {
    calc {
      a * c;
    ==
      b * c + (k * p) * c;
    ==
      b * d + b * (l * p) + (k * p) * c;
    == { MulAssoc(k, p, c); MulAssoc(k, c, p); MulAssoc(b, l, p); }
      b * d + (b * l) * p + (k * c) * p;
    ==
      b * d + (k * c + b * l) * p;
    }
  }

  lemma {:induction false} LvAppend(xs: seq<nat>, ys: seq<nat>)
    ensures Lv(xs + ys) == Lv(xs) + Rp(|xs|) * Lv(ys)
  {
    if xs == [] {
      assert xs + ys == ys;
    } else {
      assert (xs + ys)[1..] == xs[1..] + ys;
      LvAppend(xs[1..], ys);
      MulAssoc(R, Rp(|xs| - 1), Lv(ys));
    }
  }

  lemma {:induction false} AddValue(xs: seq<nat>, ys: seq<nat>)
    ensures Lv(AddN(xs, ys)) == Lv(xs) + Lv(ys)
    ensures |AddN(xs, ys)| == if |xs| >= |ys| then |xs| else |ys|
    decreases |xs|
  {
    if xs != [] && ys != [] { AddValue(xs[1..], ys[1..]); }
  }

  lemma {:induction false} AddBelow(xs: seq<nat>, ys: seq<nat>, a: nat, b: nat)
    requires Below(xs, a) && Below(ys, b)
    ensures Below(AddN(xs, ys), a + b)
    decreases |xs|
  {
    if xs != [] && ys != [] {
      AddBelow(xs[1..], ys[1..], a, b);
      var t := AddN(xs[1..], ys[1..]);
      forall i | 0 <= i < |AddN(xs, ys)| ensures AddN(xs, ys)[i] < a + b {
        if i > 0 { assert AddN(xs, ys)[i] == t[i - 1]; }
      }
    }
  }

  lemma {:induction false} ScaleValue(xs: seq<nat>, k: nat)
    ensures Lv(ScaleN(xs, k)) == Lv(xs) * k
    decreases |xs|
  {
    if xs != [] {
      assert ScaleN(xs, k)[1..] == ScaleN(xs[1..], k);
      ScaleValue(xs[1..], k);
      ScaleInt(xs[0], Lv(xs[1..]), k);
    }
  }

  lemma ScaleInt(x: int, v: int, k: int)
    ensures x * k + R * (v * k) == (x + R * v) * k
  {}

  lemma ScaleBelow(xs: seq<nat>, k: nat, b: nat, c: nat)
    requires Below(xs, b) && k < c
    ensures Below(ScaleN(xs, k), b * c)
  {
    forall i | 0 <= i < |xs| ensures xs[i] * k < b * c {
      MulMono(xs[i], b, k); MulStrict(k, c, b);
    }
  }

  /** The schoolbook product multiplies the values. */
  lemma {:induction false} MulValue(xs: seq<nat>, ys: seq<nat>)
    ensures Lv(MulN(xs, ys)) == Lv(xs) * Lv(ys)
    ensures xs != [] && ys != [] ==> |MulN(xs, ys)| == |xs| + |ys| - 1
    ensures xs == [] || ys == [] ==> MulN(xs, ys) == []
    decreases |xs|
  {
    if xs != [] && ys != [] {
      var x, y, xt, yt := xs[0], ys[0], xs[1..], ys[1..];
      MulValue(xt, ys);
      AddValue(ScaleN(yt, x), MulN(xt, ys));
      ScaleValue(yt, x);
      var u, v := Lv(xt), Lv(yt);
      assert MulN(xs, ys)[1..] == AddN(ScaleN(yt, x), MulN(xt, ys));
      assert Lv(MulN(xs, ys)) == x * y + R * (v * x + u * Lv(ys));
      Expand(x, R, u, Lv(ys), y, v);
    } else {
      assert Lv(xs) == 0 || Lv(ys) == 0;
    }
  }

  lemma Expand(x: int, r: int, u: int, w: int, y: int, v: int)
    requires w == y + r * v
    ensures x * y + r * (v * x + u * w) == (x + r * u) * w
  {
    MulAssoc(r, u, w); MulAssoc(r, v, x);
    assert r * (v * x + u * w) == r * (v * x) + r * (u * w);
    assert x * w == x * y + x * (r * v);
    assert (x + r * u) * w == x * w + (r * u) * w;
  }

  /** Columns of the product, of which each row adds at most one term below q. */
  lemma {:induction false} MulBelow(xs: seq<nat>, ys: seq<nat>, b: nat, q: nat)
    requires Below(xs, b) && Below(ys, b) && b * b == q
    ensures Below(MulN(xs, ys), |xs| * q + 1)
    decreases |xs|
  {
    if xs != [] && ys != [] {
      var row, rest := ScaleN(ys[1..], xs[0]), MulN(xs[1..], ys);
      MulBelow(xs[1..], ys, b, q);
      ScaleBelow(ys[1..], xs[0], b, b);
      AddBelow(row, rest, q, (|xs| - 1) * q + 1);
      MulMono(xs[0], b, ys[0]); MulMono(ys[0], b, b); MulMono(0, |xs| - 1, q);
      MulRows(|xs|, q);
      HeadBelow(xs[0] * ys[0], AddN(row, rest), |xs| * q + 1);
    }
  }

  lemma MulRows(n: int, q: int)
    ensures n * q == q + (n - 1) * q
  {}

  lemma HeadBelow(x: nat, xs: seq<nat>, b: nat)
    requires x < b && Below(xs, b)
    ensures Below([x] + xs, b)
  {}

  // ---- the passes keep the value modulo p ----

  lemma FoldValue(zs: seq<nat>)
    requires N <= |zs| <= 2 * N
    ensures Same(Lv(FoldN(zs)), Lv(zs)) && |FoldN(zs)| == N
  {
    hide Rp, P, Lv, Same;
    var lo, hi := zs[..N], zs[N..];
    assert zs == lo + hi;
    LvAppend(lo, hi);
    AddValue(lo, ScaleN(hi, 19));
    ScaleValue(hi, 19);
    FoldInt(Lv(lo), Lv(hi), P());
    SameBy(Lv(FoldN(zs)), Lv(zs), 0 - Lv(hi));
  }

  lemma FoldInt(lo: int, hi: int, p: int)
    ensures lo + hi * 19 == lo + (p + 19) * hi + (0 - hi) * p
  {}

  lemma FoldBelow(zs: seq<nat>, b: nat)
    requires |zs| >= N && Below(zs, b)
    ensures Below(FoldN(zs), 21 * b)
  {
    ScaleBelow(zs[N..], 19, b, 20);
    AddBelow(zs[..N], ScaleN(zs[N..], 19), b, b * 20);
  }

  /** The carry chain loses nothing: limbs below R, and a carry below K when K absorbs the limbs. */
  lemma {:induction false} CarryValue(xs: seq<nat>, c: nat, b: nat, K: nat)
    requires Below(xs, b) && c < K && b + K <= R * K
    ensures var (ls, o) := CarryN(xs, c);
            && |ls| == |xs| && Below(ls, R) && o < K
            && Lv(ls) + Rp(|xs|) * o == Lv(xs) + c
    decreases |xs|
  {
    if xs != [] {
      var s := xs[0] + c;
      var (rest, o) := CarryN(xs[1..], s / R);
      CarryValue(xs[1..], s / R, b, K);
      var ls := [s % R] + rest;
      assert ls[1..] == rest;
      MulAssoc(R, Rp(|xs| - 1), o);
      HeadBelow(s % R, rest, R);
    }
  }

  lemma PassValue(xs: seq<nat>)
    requires |xs| == N && Below(xs, 0x8000_0000_0000)
    ensures var r := PassN(xs);
            |r| == N && Below(r, 0x8_0000) && Same(Lv(r), Lv(xs))
  {
    hide Rp, Lv, CarryN;
    var (ls, c) := CarryN(xs, 0);
    CarryValue(xs, 0, 0x8000_0000_0000, 0x8000_0000);
    var t := ls[0] + c * 19;
    TwoChanged(ls, t % R, ls[1] + t / R);
    assert Rp(15) * c == P() * c + 19 * c;
    SameBy(Lv(PassN(xs)), Lv(xs), 0 - c);
  }

  lemma TwoChanged(ls: seq<nat>, a: nat, b: nat)
    requires |ls| >= 2
    ensures Lv([a, b] + ls[2..]) == Lv(ls) - (ls[0] + R * ls[1]) + (a + R * b)
  {
    var r := [a, b] + ls[2..];
    assert r[1..][1..] == ls[2..] && ls[1..][1..] == ls[2..];
    TwoLimbs(r); TwoLimbs(ls);
  }

  lemma TwoLimbs(xs: seq<nat>)
    requires |xs| >= 2
    ensures Lv(xs) == xs[0] + R * (xs[1] + R * Lv(xs[1..][1..]))
  {}

  lemma {:induction false} CarriesValue(xs: seq<nat>, c: nat, b: nat)
    requires Below(xs, b * R) && c < b
    ensures var (ls, o) := CarriesN(xs, c);
            && |ls| == |xs| && Below(ls, R + b) && o < b
            && Lv(ls) + Rp(|xs|) * o == Lv(xs) + c
    decreases |xs|
  {
    if xs != [] {
      var (rest, o) := CarriesN(xs[1..], xs[0] / R);
      CarriesValue(xs[1..], xs[0] / R, b);
      var ls := [xs[0] % R + c] + rest;
      assert ls[1..] == rest;
      MulAssoc(R, Rp(|xs| - 1), o);
      HeadBelow(xs[0] % R + c, rest, R + b);
    }
  }

  lemma ParallelValue(xs: seq<nat>, b: nat)
    requires |xs| == N && b > 0 && Below(xs, b * R)
    ensures var r := ParallelN(xs);
            |r| == N && Below(r, R + 19 * b) && Same(Lv(r), Lv(xs))
  {
    hide Rp, Lv, CarriesN, Below;
    DivBelow(xs[0], b, R) by { BelowAt(xs, 0, b * R); }
    BelowTail(xs, b * R);
    var (rest, q) := CarriesN(xs[1..], xs[0] / R);
    CarriesValue(xs[1..], xs[0] / R, b);
    var x := xs[0] % R + q * 19;
    LvCons(x, rest);
    LvCons(xs[0], xs[1..]);
    assert xs == [xs[0]] + xs[1..];
    RpSucc(14);
    MulAssoc(R, Rp(14), q);
    assert Rp(15) * q == P() * q + 19 * q;
    BelowMore(rest, R + b, R + 19 * b);
    HeadBelow(x, rest, R + 19 * b);
    SameBy(Lv(ParallelN(xs)), Lv(xs), 0 - q);
  }

  lemma LvCons(x: nat, xs: seq<nat>)
    ensures Lv([x] + xs) == x + R * Lv(xs)
  {
    assert ([x] + xs)[1..] == xs;
  }

  lemma NoLimb()
    ensures Lv([]) == 0 && Below([], R)
  {}

  lemma BelowAt(xs: seq<nat>, i: nat, b: nat)
    requires i < |xs| && Below(xs, b)
    ensures xs[i] < b
  {}

  lemma BelowTail(xs: seq<nat>, b: nat)
    requires xs != [] && Below(xs, b)
    ensures Below(xs[1..], b)
  {}

  lemma BelowMore(xs: seq<nat>, b: nat, c: nat)
    requires Below(xs, b) && b <= c
    ensures Below(xs, c)
  {}

  lemma RpSucc(n: nat)
    ensures Rp(n + 1) == R * Rp(n)
  {}

  lemma {:induction false} SubValue(xs: seq<nat>, ys: seq<nat>, ks: seq<nat>)
    requires |xs| == |ys| == |ks|
    requires forall i :: 0 <= i < |ys| ==> ys[i] <= ks[i]
    ensures Lv(SubN(xs, ys, ks)) == Lv(xs) + Lv(ks) - Lv(ys)
    decreases |xs|
  {
    if xs != [] {
      assert SubN(xs, ys, ks)[1..] == SubN(xs[1..], ys[1..], ks[1..]);
      SubValue(xs[1..], ys[1..], ks[1..]);
    }
  }

  lemma {:induction false} NinesValue(n: nat)
    ensures Lv(Nines(n)) == 8 * Rp(n) - 8
  {
    if n > 0 {
      assert Nines(n)[1..] == Nines(n - 1);
      NinesValue(n - 1);
    }
  }

  lemma EightPValue()
    ensures Lv(EightP()) == 8 * P()
  {
    hide Rp, Nines, Lv;
    NinesValue(14);
    RpSucc(14);
    LvCons(8 * R - 152, Nines(14));
  }

  // ---- the field operations ----

  /** An element: 15 limbs below 2^19. */
  predicate Ok(xs: seq<nat>) {
    |xs| == N && Below(xs, 0x8_0000)
  }

  function FeAdd(a: seq<nat>, b: seq<nat>): seq<nat>
    requires Ok(a) && Ok(b)
  {
    AddValue(a, b);
    ParallelN(AddN(a, b))
  }

  function FeSub(a: seq<nat>, b: seq<nat>): seq<nat>
    requires Ok(a) && Ok(b)
  {
    ParallelN(SubN(a, b, EightP()))
  }

  function FeMul(a: seq<nat>, b: seq<nat>): seq<nat>
    requires Ok(a) && Ok(b)
  {
    MulValue(a, b);
    PassN(FoldN(MulN(a, b)))
  }

  function FeMulSmall(a: seq<nat>, k: nat): seq<nat>
    requires Ok(a) && k < R
  {
    ScaleBelow(a, k, 0x8_0000, R);
    ParallelValue(ScaleN(a, k), 0x8_0000);
    ParallelN(ParallelN(ScaleN(a, k)))
  }

  lemma FeAddValue(a: seq<nat>, b: seq<nat>)
    requires Ok(a) && Ok(b)
    ensures Ok(FeAdd(a, b)) && Same(Lv(FeAdd(a, b)), Lv(a) + Lv(b))
  {
    hide ParallelN, Lv, AddN, Same;
    AddValue(a, b);
    AddBelow(a, b, 0x8_0000, 0x8_0000);
    ParallelValue(AddN(a, b), 8);
  }

  lemma FeSubValue(a: seq<nat>, b: seq<nat>)
    requires Ok(a) && Ok(b)
    ensures Ok(FeSub(a, b)) && Same(Lv(FeSub(a, b)), Lv(a) - Lv(b))
  {
    hide ParallelN, Lv, Rp;
    SubValue(a, b, EightP());
    EightPValue();
    ParallelValue(SubN(a, b, EightP()), 16);
    SameBy(Lv(a) + 8 * P() - Lv(b), Lv(a) - Lv(b), 8);
    SameTrans(Lv(FeSub(a, b)), Lv(a) + 8 * P() - Lv(b), Lv(a) - Lv(b));
  }

  lemma FeMulValue(a: seq<nat>, b: seq<nat>)
    requires Ok(a) && Ok(b)
    ensures Ok(FeMul(a, b)) && Same(Lv(FeMul(a, b)), Lv(a) * Lv(b))
  {
    hide PassN, FoldN, MulN, Lv, Same, Rp;
    MulValue(a, b);
    MulBelow(a, b, 0x8_0000, 0x40_0000_0000);
    FoldBelow(MulN(a, b), 15 * 0x40_0000_0000 + 1);
    FoldValue(MulN(a, b));
    PassValue(FoldN(MulN(a, b)));
    SameTrans(Lv(FeMul(a, b)), Lv(FoldN(MulN(a, b))), Lv(a) * Lv(b));
  }

  lemma FeMulSmallValue(a: seq<nat>, k: nat)
    requires Ok(a) && k < R
    ensures Ok(FeMulSmall(a, k)) && Same(Lv(FeMulSmall(a, k)), Lv(a) * k)
  {
    hide ParallelN, Lv, Same, Rp;
    var xs := ScaleN(a, k);
    ScaleBelow(a, k, 0x8_0000, R);
    ScaleValue(a, k);
    ParallelValue(xs, 0x8_0000);
    ParallelValue(ParallelN(xs), 0x100);
    SameTrans(Lv(FeMulSmall(a, k)), Lv(ParallelN(xs)), Lv(xs));
  }

  // ---- what the definitions say, in numbers ----

  /** Limb i counts 2^(17 i). */
  lemma LimbsAre(xs: seq<nat>, x: nat)
    ensures Lv([]) == 0 && Lv(xs + [x]) == Lv(xs) + Pow2(17 * |xs|) * x
  {
    hide Rp, Pow2;
    LvAppend(xs, [x]);
    RpPow(|xs|);
    assert Lv([x]) == x by { assert [x][1..] == []; }
  }

  /** The bound that the operations keep. */
  lemma OkIs(xs: seq<nat>)
    ensures Ok(xs) <==> |xs| == 15 && forall i :: 0 <= i < 15 ==> xs[i] < 0x8_0000
  {}

  /** Congruence modulo 2^255 - 19. */
  lemma SameIs(a: int, b: int)
    ensures Pow2(255) > 19 && (Same(a, b) <==> (a - b) % (Pow2(255) - 19) == 0)
  {
    hide Pow2, Rp, P;
    PrimeLiteral();
    BigPrime();
    var p: int := P();
    if Same(a, b) {
      var k :| a == b + k * P();
      DivModUnique(a - b, p, k, 0);
    }
    if (a - b) % p == 0 {
      DivMod(a - b, p);
      SameBy(a, b, (a - b) / p);
    }
  }

  lemma BigPrime()
    ensures Pow2(255) > 19
  {
    hide Pow2;
    Pow2Values(); Pow2Mono(8, 255);
  }
}
