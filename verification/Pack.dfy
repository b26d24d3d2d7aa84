/** Bytes to 17-bit limbs and back through a bit buffer (tools/gen_pack.py:24-75, 255-266, 427-438):
    one function parametric in the buffer size nb for the generated cases. */
module Pack {
  import opened Arith
  import opened Sequences
  import F = Limbs

  /** A byte, whatever the word holds. */
  function B8(b: nat): nat { b % 256 }

  /** 2^n x. */
  function Shl(n: nat, x: nat): nat
    decreases n
  {
    if n == 0 then x else 2 * Shl(n - 1, x)
  }

  /** gen_pack.py:41-53: a byte enters above the nb buffered bits; a limb leaves at 17. */
  function Pk(bs: seq<nat>, acc: nat, nb: nat): seq<nat>
    decreases |bs|
  {
    if bs == [] then [acc]
    else
      var b, bt := B8(bs[0]), bs[1..];
      if nb <= 8 then Pk(bt, acc + Shl(nb, b), nb + 8)
      else if nb <= 16 then
        [acc + Shl(nb, Low(b, 17 - nb))] + Pk(bt, Shr(b, 17 - nb), nb - 9)
      else [acc] + Pk(bt, b, 8)
  }

  /** gen_pack.py:62-75: a limb enters above the nb buffered bits; bytes leave at 8. */
  function Up(xs: seq<nat>, acc: nat, nb: nat): seq<nat>
    decreases |xs|
  {
    if xs == [] then [B8(acc)]
    else
      var x, xt := xs[0], xs[1..];
      if nb <= 6 then
        var x1 := Shr(x, 8 - nb);
        [B8(acc + Shl(nb, Low(x, 8 - nb))), B8(x1)] + Up(xt, x1 / 256, nb + 1)
      else if nb == 7 then
        [B8(acc + Shl(7, x % 2)), B8(x / 2), B8(x / 2 / 256)] + Up(xt, 0, 0)
      else [B8(acc)] + Up(xt, x, 0)
  }

  /** The number of limbs of n bytes entering above nb buffered bits: the last one is never full. */
  function Pkn(n: nat, nb: nat): (r: nat)
    ensures nb <= 16 ==> r == (8 * n + nb) / 17 + 1
    decreases n
  {
    if n == 0 then 1
    else if nb <= 8 then Pkn(n - 1, nb + 8)
    else if nb <= 16 then 1 + Pkn(n - 1, nb - 9)
    else 1 + Pkn(n - 1, 8)
  }

  /** The number of bytes of n limbs entering above nb buffered bits. */
  function Upn(n: nat, nb: nat): (r: nat)
    ensures nb <= 7 ==> r == (17 * n + nb) / 8 + 1
    decreases n
  {
    if n == 0 then 1
    else if nb <= 6 then 2 + Upn(n - 1, nb + 1)
    else if nb == 7 then 3 + Upn(n - 1, 0)
    else 1 + Upn(n - 1, 0)
  }

  // ---- values ----

  /** The value of a list of digits, least significant first. */
  function Dv(base: nat, xs: seq<nat>): nat
    decreases |xs|
  {
    if xs == [] then 0 else xs[0] + base * Dv(base, xs[1..])
  }

  /** The bytes that a list of words holds. */
  function Bytes(bs: seq<nat>): (r: seq<nat>)
    ensures |r| == |bs|
  {
    seq(|bs|, i requires 0 <= i < |bs| => B8(bs[i]))
  }

  lemma {:induction false} ShlValue(n: nat, x: nat)
    ensures Shl(n, x) == Pow2(n) * x
    decreases n
  {
    if n > 0 {
      ShlValue(n - 1, x);
      MulAssoc(2, Pow2(n - 1), x);
    }
  }

  /** A digit below 2^w entering above i buffered bits. */
  lemma Enter(acc: nat, i: nat, x: nat, w: nat)
    requires acc < Pow2(i) && x < Pow2(w)
    ensures acc + Shl(i, x) == acc + Pow2(i) * x < Pow2(i + w)
  {
    ShlValue(i, x);
    Pow2Add(i, w);
    MulStrict(x, Pow2(w), Pow2(i));
  }

  /** Splitting a w-bit digit at bit k. */
  lemma Split(x: nat, w: nat, k: nat)
    requires x < Pow2(w) && k <= w
    ensures x == Low(x, k) + Pow2(k) * Shr(x, k) && Shr(x, k) < Pow2(w - k)
  {
    hide Pow2;
    DivMod(x, Pow2(k));
    Pow2Add(k, w - k);
    DivBelow(x, Pow2(w - k), Pow2(k));
  }

  lemma Powers()
    ensures Pow2(8) == 256 && Pow2(17) == F.R && Pow2(0) == 1
  {
    Pow2Values();
  }

  lemma DvCons(base: nat, x: nat, xs: seq<nat>)
    ensures Dv(base, [x] + xs) == x + base * Dv(base, xs)
  {
    assert ([x] + xs)[1..] == xs;
  }

  /** A low part below 2^i with r above it, and the rest q and v above that: one list of bits. */
  lemma Regroup(acc: int, i: int, r: int, k: int, q: int, v: int)
    ensures acc + i * r + (i * k) * (q + v) == acc + i * (r + k * q) + (i * k) * v
  {
    MulAssoc(i, k, q); MulAssoc(i, k, v);
    assert i * (r + k * q) == i * r + i * (k * q);
    assert (i * k) * (q + v) == (i * k) * q + (i * k) * v;
  }

  lemma PkLow(acc: nat, nb: nat, b: nat, v: nat)
    requires acc < Pow2(nb) && b < 256
    ensures acc + Shl(nb, b) < Pow2(nb + 8)
    ensures acc + Shl(nb, b) + Pow2(nb + 8) * v == acc + Pow2(nb) * (b + 256 * v)
  {
    hide Pow2, Shl;
    Powers();
    Enter(acc, nb, b, 8);
    Pow2Add(nb, 8);
    LowJoin(Pow2(nb), b, v);
  }

  lemma LowJoin(i: int, b: int, v: int)
    ensures i * b + (i * 256) * v == i * (b + 256 * v)
  {
    MulAssoc(i, 256, v);
  }

  lemma PkHigh(acc: nat, nb: nat, b: nat, rest: seq<nat>, v: nat)
    requires 9 <= nb <= 16 && acc < Pow2(nb) && b < 256 && Below(rest, F.R)
    requires Dv(F.R, rest) == Shr(b, 17 - nb) + Pow2(nb - 9) * v
    ensures var r := [acc + Shl(nb, Low(b, 17 - nb))] + rest;
            Below(r, F.R) && Dv(F.R, r) == acc + Pow2(nb) * (b + 256 * v)
  {
    hide Pow2, Shl, Low, Shr, Below, Dv;
    Powers();
    var k := 17 - nb;
    Split(b, 8, k);
    Enter(acc, nb, Low(b, k), k);
    var x := acc + Shl(nb, Low(b, k));
    F.HeadBelow(x, rest, F.R);
    DvCons(F.R, x, rest);
    Pow2Add(nb, k); Pow2Add(k, nb - 9);
    PkJoin(acc, Pow2(nb), Low(b, k), Pow2(k), Shr(b, k), v, Pow2(nb - 9), b);
  }

  lemma {:induction false} PkLength(bs: seq<nat>, acc: nat, nb: nat)
    ensures |Pk(bs, acc, nb)| == Pkn(|bs|, nb)
    decreases |bs|
  {
    hide Shl, Low, Shr, B8;
    if bs != [] {
      var b, bt := B8(bs[0]), bs[1..];
      if nb <= 8 {
        PkLength(bt, acc + Shl(nb, b), nb + 8);
      } else if nb <= 16 {
        PkLength(bt, Shr(b, 17 - nb), nb - 9);
      } else {
        PkLength(bt, b, 8);
      }
    }
  }

  /** Packing keeps the value: limbs below 2^17 holding acc and the bytes above its nb bits. */
  lemma {:induction false} PkValue(bs: seq<nat>, acc: nat, nb: nat)
    requires nb <= 16 && acc < Pow2(nb)
    ensures Below(Pk(bs, acc, nb), F.R) && |Pk(bs, acc, nb)| == Pkn(|bs|, nb)
    ensures Dv(F.R, Pk(bs, acc, nb)) == acc + Pow2(nb) * Dv(256, Bytes(bs))
    decreases |bs|
  {
    hide Pow2, Shl, Low, Shr, Dv, Below, Pkn;
    Powers();
    PkLength(bs, acc, nb);
    if bs == [] {
      Pow2Strict(nb, 17);
      OneDigit(F.R, acc);
      assert Bytes(bs) == [] && Dv(256, []) == 0 by { NoDigit(256); }
    } else {
      var b, bt := B8(bs[0]), bs[1..];
      var v := Dv(256, Bytes(bt));
      assert Bytes(bs) == [b] + Bytes(bt);
      DvCons(256, b, Bytes(bt));
      if nb <= 8 {
        PkLow(acc, nb, b, v);
        PkValue(bt, acc + Shl(nb, b), nb + 8);
      } else {
        Split(b, 8, 17 - nb);
        PkValue(bt, Shr(b, 17 - nb), nb - 9);
        PkHigh(acc, nb, b, Pk(bt, Shr(b, 17 - nb), nb - 9), v);
      }
    }
  }

  lemma OneDigit(base: nat, x: nat)
    requires x < base
    ensures Below([x], base) && Dv(base, [x]) == x
  {
    assert [x][1..] == [];
  }

  lemma NoDigit(base: nat)
    ensures Dv(base, []) == 0
  {}

  lemma PkJoin(acc: int, i: int, r: int, k: int, q: int, v: int, j: int, b: int)
    requires b == r + k * q && k * j == 256
    ensures acc + i * r + (i * k) * (q + j * v) == acc + i * (b + 256 * v)
  {
    Regroup(acc, i, r, k, q, j * v);
    MulAssoc(i, k, j * v); MulAssoc(k, j, v);
    assert i * (b + 256 * v) == i * b + i * (256 * v);
  }

  lemma UpSix(x: nat, acc: nat, nb: nat, rest: seq<nat>, v: nat)
    requires nb <= 6 && acc < Pow2(nb) && x < F.R && Below(rest, 256)
    requires Dv(256, rest) == Shr(x, 8 - nb) / 256 + Pow2(nb + 1) * v
    ensures var r := [B8(acc + Shl(nb, Low(x, 8 - nb))), B8(Shr(x, 8 - nb))] + rest;
            Below(r, 256) && Dv(256, r) == acc + Pow2(nb) * (x + F.R * v)
  {
    hide Pow2, Shl, Low, Shr, Below, Dv;
    FirstByte(x, acc, nb);
    var k, q := 8 - nb, Shr(x, 8 - nb);
    TwoBytes(acc + Shl(nb, Low(x, k)), q % 256, rest);
    UpPowers(nb);
    UpJoin(acc, Pow2(nb), Low(x, k), Pow2(k), q, v, Pow2(nb + 1), x);
  }

  /** The buffer and the limb's low 8 - nb bits make one byte. */
  lemma FirstByte(x: nat, acc: nat, nb: nat)
    requires nb <= 8 && acc < Pow2(nb) && x < F.R
    ensures var k := 8 - nb;
            var y := acc + Shl(nb, Low(x, k));
            && x == Low(x, k) + Pow2(k) * Shr(x, k)
            && y == acc + Pow2(nb) * Low(x, k) && y < 256 && B8(y) == y
  {
    hide Pow2, Shl, Low, Shr;
    Powers();
    Split(x, 17, 8 - nb);
    Enter(acc, nb, Low(x, 8 - nb), 8 - nb);
    ModSmall(acc + Shl(nb, Low(x, 8 - nb)), 256);
  }

  lemma UpPowers(nb: nat)
    requires nb <= 8
    ensures Pow2(nb) * Pow2(8 - nb) == 256 && 0x1_0000 * Pow2(nb + 1) == Pow2(nb) * 0x2_0000
  {
    hide Pow2;
    Pow2Add(nb, 8 - nb); Pow2Succ(nb); Pow2Values();
  }

  lemma UpSeven(x: nat, acc: nat, rest: seq<nat>, v: nat)
    requires acc < Pow2(7) && x < F.R && Below(rest, 256) && Dv(256, rest) == v
    ensures var r := [B8(acc + Shl(7, x % 2)), B8(x / 2), B8(x / 2 / 256)] + rest;
            Below(r, 256) && Dv(256, r) == acc + Pow2(7) * (x + F.R * v)
  {
    hide Shl, Below, Dv;
    assert Pow2(1) == 2 && Pow2(7) == 128;
    Enter(acc, 7, x % 2, 1);
    Powers();
    var y, q: nat := acc + Shl(7, x % 2), x / 2;
    ModSmall(y, 256); ModSmall(q / 256, 256);
    F.HeadBelow(q / 256, rest, 256);
    DvCons(256, q / 256, rest);
    TwoBytes(y, q % 256, [q / 256] + rest);
    assert [y, q % 256] + ([q / 256] + rest) == [y, q % 256, q / 256] + rest;
  }

  lemma {:induction false} UpLength(xs: seq<nat>, acc: nat, nb: nat)
    ensures |Up(xs, acc, nb)| == Upn(|xs|, nb)
    decreases |xs|
  {
    hide Shl, Low, Shr, B8;
    if xs != [] {
      var x, xt := xs[0], xs[1..];
      if nb <= 6 {
        UpLength(xt, Shr(x, 8 - nb) / 256, nb + 1);
      } else if nb == 7 {
        UpLength(xt, 0, 0);
      } else {
        UpLength(xt, x, 0);
      }
    }
  }

  /** Unpacking keeps the value: bytes holding acc and the limbs above its nb bits. */
  lemma {:induction false} UpValue(xs: seq<nat>, acc: nat, nb: nat)
    requires nb <= 7 && acc < Pow2(nb) && Below(xs, F.R)
    ensures Below(Up(xs, acc, nb), 256) && |Up(xs, acc, nb)| == Upn(|xs|, nb)
    ensures Dv(256, Up(xs, acc, nb)) == acc + Pow2(nb) * Dv(F.R, xs)
    decreases |xs|
  {
    hide Pow2, Shl, Low, Shr, Below, Dv, Upn;
    Powers();
    UpLength(xs, acc, nb);
    if xs == [] {
      Pow2Strict(nb, 8);
      ModSmall(acc, 256);
      OneDigit(256, acc);
      NoDigit(F.R);
    } else {
      var x, xt := xs[0], xs[1..];
      F.BelowAt(xs, 0, F.R); F.BelowTail(xs, F.R);
      DvCons(F.R, x, xt);
      assert xs == [x] + xt;
      if nb <= 6 {
        Split(x, 17, 8 - nb);
        QuotientBelow(Shr(x, 8 - nb), nb);
        UpValue(xt, Shr(x, 8 - nb) / 256, nb + 1);
        UpSix(x, acc, nb, Up(xt, Shr(x, 8 - nb) / 256, nb + 1), Dv(F.R, xt));
      } else {
        UpValue(xt, 0, 0);
        UpSeven(x, acc, Up(xt, 0, 0), Dv(F.R, xt));
      }
    }
  }

  lemma QuotientBelow(q: nat, nb: nat)
    requires nb <= 6 && q < Pow2(17 - (8 - nb))
    ensures q / 256 < Pow2(nb + 1)
  {
    hide Pow2;
    Powers();
    Pow2Add(nb + 1, 8);
    DivBelow(q, Pow2(nb + 1), 256);
  }

  lemma TwoBytes(y: nat, z: nat, rest: seq<nat>)
    requires y < 256 && z < 256 && Below(rest, 256)
    ensures Below([y, z] + rest, 256) && Dv(256, [y, z] + rest) == y + 256 * (z + 256 * Dv(256, rest))
  {
    assert [y, z] + rest == [y] + ([z] + rest);
    DvCons(256, z, rest); DvCons(256, y, [z] + rest);
  }

  lemma UpJoin(acc: int, i: int, r: int, k: int, q: int, v: int, j: int, x: int)
    requires x == r + k * q && i * k == 256 && 0x1_0000 * j == i * 0x2_0000
    ensures acc + i * r + 256 * (q % 256 + 256 * (q / 256 + j * v)) == acc + i * (x + 0x2_0000 * v)
  {
    MulAssoc(i, k, q); MulAssoc(0x1_0000, j, v); MulAssoc(i, 0x2_0000, v);
    assert i * (r + k * q + 0x2_0000 * v) == i * r + i * (k * q) + i * (0x2_0000 * v);
  }

  // ---- the two invert each other, up to zero padding ----

  function Zeros(n: nat): seq<nat> { seq(n, i => 0) }

  /** Digits below the base are determined by their value, up to zeros at the top. */
  lemma {:induction false} DigitsUnique(base: nat, a: seq<nat>, b: seq<nat>)
    requires base > 1 && Below(a, base) && Below(b, base) && |b| <= |a| && Dv(base, a) == Dv(base, b)
    ensures a == b + Zeros(|a| - |b|)
    decreases |a|
  {
    hide Dv, Below;
    if a != [] {
      assert a == [a[0]] + a[1..];
      DvCons(base, a[0], a[1..]);
      F.BelowAt(a, 0, base); F.BelowTail(a, base);
      if b == [] {
        NoDigit(base);
        SameDigits(a[0], Dv(base, a[1..]), 0, 0, base);
        DigitsUnique(base, a[1..], []) by { F.BelowMore([], 0, base) by { NoneBelow(); } }
      } else {
        assert b == [b[0]] + b[1..];
        DvCons(base, b[0], b[1..]);
        F.BelowAt(b, 0, base); F.BelowTail(b, base);
        SameDigits(a[0], Dv(base, a[1..]), b[0], Dv(base, b[1..]), base);
        DigitsUnique(base, a[1..], b[1..]);
      }
    }
  }

  lemma NoneBelow()
    ensures Below([], 0)
  {}

  lemma SameDigits(x: nat, u: nat, y: nat, v: nat, base: nat)
    requires x < base && y < base && x + base * u == y + base * v
    ensures x == y && u == v
  {
    DivModUnique(x + base * u, base, u, x); DivModUnique(x + base * u, base, v, y);
  }

  /** Bytes packed into limbs and written back are those bytes, then zeros. */
  lemma UpAfterPk(bs: seq<nat>)
    ensures var r := Up(Pk(bs, 0, 0), 0, 0);
            |bs| <= |r| && r == Bytes(bs) + Zeros(|r| - |bs|)
  {
    hide Pk, Up, Dv;
    Powers();
    PkValue(bs, 0, 0);
    UpValue(Pk(bs, 0, 0), 0, 0);
    Lengths(|bs|);
    DigitsUnique(256, Up(Pk(bs, 0, 0), 0, 0), Bytes(bs));
  }

  lemma Lengths(n: nat)
    ensures n <= Upn(Pkn(n, 0), 0) && n <= Pkn(Upn(n, 0), 0)
  {}

  /** Limbs written as bytes and packed again are those limbs, then zeros. */
  lemma PkAfterUp(xs: seq<nat>)
    requires Below(xs, F.R)
    ensures var r := Pk(Up(xs, 0, 0), 0, 0);
            |xs| <= |r| && r == xs + Zeros(|r| - |xs|)
  {
    hide Pk, Up, Dv;
    Powers();
    UpValue(xs, 0, 0);
    BytesOfBytes(Up(xs, 0, 0));
    PkValue(Up(xs, 0, 0), 0, 0);
    Lengths(|xs|);
    DigitsUnique(F.R, Pk(Up(xs, 0, 0), 0, 0), xs);
  }

  lemma BytesOfBytes(bs: seq<nat>)
    requires Below(bs, 256)
    ensures Bytes(bs) == bs
  {
    forall i | 0 <= i < |bs| ensures Bytes(bs)[i] == bs[i] { ModSmall(bs[i], 256); }
  }

  /** Digit i of a list of bytes counts 2^(8 i), that of a list of limbs 2^(17 i). */
  lemma {:induction false} DigitsAre(xs: seq<nat>, x: nat)
    ensures Dv(256, []) == 0 && Dv(256, xs + [x]) == Dv(256, xs) + Pow2(8 * |xs|) * x
    ensures Dv(0x2_0000, []) == 0 && Dv(0x2_0000, xs + [x]) == Dv(0x2_0000, xs) + Pow2(17 * |xs|) * x
  {
    hide Pow2, Dv;
    NoDigit(256); NoDigit(0x2_0000);
    if xs == [] {
      assert [] + [x] == [x] && Pow2(0) == 1 by { PowerZero(); }
      SingleDigit(256, x); SingleDigit(0x2_0000, x);
    } else {
      var rest := xs[1..];
      DigitsAre(rest, x);
      assert xs + [x] == [xs[0]] + (rest + [x]) && xs == [xs[0]] + rest;
      DvCons(256, xs[0], rest + [x]); DvCons(256, xs[0], rest);
      DvCons(0x2_0000, xs[0], rest + [x]); DvCons(0x2_0000, xs[0], rest);
      Pow2Values(); Pow2Add(8, 8 * |rest|); Pow2Add(17, 17 * |rest|);
      MulAssoc(256, Pow2(8 * |rest|), x); MulAssoc(0x2_0000, Pow2(17 * |rest|), x);
    }
  }

  lemma SingleDigit(base: nat, x: nat)
    ensures Dv(base, [x]) == x
  {
    assert [x][1..] == [];
  }

  lemma PowerZero()
    ensures Pow2(0) == 1
  {}

  lemma BytesAre(bs: seq<nat>, i: nat)
    requires i < |bs|
    ensures |Bytes(bs)| == |bs| && Bytes(bs)[i] == bs[i] % 256
  {}
}
