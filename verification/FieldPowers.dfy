/** The powers with public exponents: the addition chain of tools/gen_fe.py:322-359. */
module FieldPowers {
  import opened Arith
  import opened Limbs

  type Fe = xs: seq<nat> | Ok(xs) witness seq(15, i => 0)

  function Mul(a: Fe, b: Fe): Fe {
    FeMulValue(a, b);
    FeMul(a, b)
  }

  /** y^(2^n). */
  function Sqn(n: nat, y: Fe): Fe
    decreases n
  {
    if n == 0 then y else Sqn(n - 1, Mul(y, y))
  }

  /** y^(2^m) z. */
  function Cat(y: Fe, z: Fe, m: nat): Fe { Mul(Sqn(m, y), z) }

  function P250(x: Fe): Fe {
    var z2 := Cat(x, x, 1);
    var z4 := Cat(z2, z2, 2);
    var z5 := Cat(z4, x, 1);
    var z10 := Cat(z5, z5, 5);
    var z20 := Cat(z10, z10, 10);
    var z40 := Cat(z20, z20, 20);
    var z50 := Cat(z40, z10, 10);
    var z100 := Cat(z50, z50, 50);
    var z200 := Cat(z100, z100, 100);
    Cat(z200, z50, 50)
  }

  function PowBit(b: bool, x: Fe, acc: Fe): Fe {
    if b then Mul(Mul(acc, acc), x) else Mul(acc, acc)
  }

  function PowBits(x: Fe, bs: seq<bool>, acc: Fe): Fe
    decreases |bs|
  {
    if bs == [] then acc else PowBits(x, bs[1..], PowBit(bs[0], x, acc))
  }

  function Inv(x: Fe): Fe { PowBits(x, [false, true, false, true, true], P250(x)) }

  function PowP58(x: Fe): Fe { PowBits(x, [false, true], P250(x)) }

  // ---- exponents ----

  function Pow(v: int, e: nat): int { if e == 0 then 1 else v * Pow(v, e - 1) }

  lemma {:induction false} PowAdd(v: int, e: nat, f: nat)
    ensures Pow(v, e + f) == Pow(v, e) * Pow(v, f)
  {
    if e > 0 {
      PowAdd(v, e - 1, f);
      MulAssoc(v, Pow(v, e - 1), Pow(v, f));
    }
  }

  ghost predicate IsPow(y: Fe, x: Fe, e: nat) { Same(Lv(y), Pow(Lv(x), e)) }

  lemma MulIsPow(y: Fe, z: Fe, x: Fe, e: nat, f: nat)
    requires IsPow(y, x, e) && IsPow(z, x, f)
    ensures IsPow(Mul(y, z), x, e + f)
  {
    hide Same, Pow, Lv, FeMul, Ok;
    FeMulValue(y, z);
    PowAdd(Lv(x), e, f);
    SameMul(Lv(y), Pow(Lv(x), e), Lv(z), Pow(Lv(x), f));
    SameTrans(Lv(Mul(y, z)), Lv(y) * Lv(z), Pow(Lv(x), e + f));
  }

  lemma SelfIsPow(x: Fe)
    ensures IsPow(x, x, 1)
  {
    assert Pow(Lv(x), 1) == Lv(x) * Pow(Lv(x), 0);
    SameBy(Lv(x), Pow(Lv(x), 1), 0);
  }

  lemma {:induction false} SqnIsPow(n: nat, y: Fe, x: Fe, e: nat)
    requires IsPow(y, x, e)
    ensures IsPow(Sqn(n, y), x, Times(e, Pow2(n)))
    decreases n
  {
    hide IsPow, Mul, Ok;
    if n > 0 {
      MulIsPow(y, y, x, e, e);
      SqnIsPow(n - 1, Mul(y, y), x, e + e);
      assert (e + e) * Pow2(n - 1) == e * Pow2(n);
    }
  }

  /** With y = x^(2^n - 1) and z = x^(2^m - 1), x^(2^(n + m) - 1). */
  lemma CatIsPow(y: Fe, z: Fe, x: Fe, n: nat, m: nat)
    requires IsPow(y, x, Pow2(n) - 1) && IsPow(z, x, Pow2(m) - 1)
    ensures IsPow(Cat(y, z, m), x, Pow2(n + m) - 1)
  {
    hide IsPow, Mul, Ok, Pow2, Sqn;
    SqnIsPow(m, y, x, Pow2(n) - 1);
    MulIsPow(Sqn(m, y), z, x, (Pow2(n) - 1) * Pow2(m), Pow2(m) - 1);
    Pow2Add(n, m);
    assert (Pow2(n) - 1) * Pow2(m) + (Pow2(m) - 1) == Pow2(n) * Pow2(m) - 1;
  }

  /** The addition chain reaches 2^250 - 1. */
  lemma P250IsPow(x: Fe)
    ensures IsPow(P250(x), x, Pow2(250) - 1)
  {
    hide IsPow, Cat, Ok, Pow2;
    SelfIsPow(x); OneBit();
    var z2 := Cat(x, x, 1);
    CatIsPow(x, x, x, 1, 1);
    var z4 := Cat(z2, z2, 2);
    CatIsPow(z2, z2, x, 2, 2);
    var z5 := Cat(z4, x, 1);
    CatIsPow(z4, x, x, 4, 1);
    var z10 := Cat(z5, z5, 5);
    CatIsPow(z5, z5, x, 5, 5);
    var z20 := Cat(z10, z10, 10);
    CatIsPow(z10, z10, x, 10, 10);
    var z40 := Cat(z20, z20, 20);
    CatIsPow(z20, z20, x, 20, 20);
    var z50 := Cat(z40, z10, 10);
    CatIsPow(z40, z10, x, 40, 10);
    var z100 := Cat(z50, z50, 50);
    CatIsPow(z50, z50, x, 50, 50);
    var z200 := Cat(z100, z100, 100);
    CatIsPow(z100, z100, x, 100, 100);
    CatIsPow(z200, z50, x, 200, 50);
  }

  lemma OneBit()
    ensures Pow2(1) - 1 == 1
  {}

  /** The number whose bits, most significant first, follow those of e. */
  function Appended(e: nat, bs: seq<bool>): nat
    decreases |bs|
  {
    if bs == [] then e else Appended(2 * e + (if bs[0] then 1 else 0), bs[1..])
  }

  lemma {:induction false} PowBitsIsPow(x: Fe, bs: seq<bool>, acc: Fe, e: nat)
    requires IsPow(acc, x, e)
    ensures IsPow(PowBits(x, bs, acc), x, Appended(e, bs))
    decreases |bs|
  {
    hide IsPow, Mul, Ok;
    if bs != [] {
      MulIsPow(acc, acc, x, e, e);
      SelfIsPow(x);
      if bs[0] { MulIsPow(Mul(acc, acc), x, x, e + e, 1); }
      PowBitsIsPow(x, bs[1..], PowBit(bs[0], x, acc), 2 * e + (if bs[0] then 1 else 0));
    }
  }

  /** Inversion raises to p - 2 = 2^255 - 21, modulo p. */
  lemma InvIsPow(x: Fe)
    ensures P() > 2 && Lv(Inv(x)) % P() == Pow(Lv(x), P() - 2) % P()
  {
    hide IsPow, Mul, Ok, Pow2, P250, Pow, PowBits, Lv, Appended, P;
    P250IsPow(x);
    PowBitsIsPow(x, [false, true, false, true, true], P250(x), Pow2(250) - 1);
    FiveBits(Pow2(250) - 1);
    Exponents();
    SameOf(Inv(x), x, P() - 2);
  }

  /** The exponent of square roots: (p - 5) / 8 = 2^252 - 3. */
  lemma PowP58IsPow(x: Fe)
    ensures P() > 5 && (P() - 5) % 8 == 0
    ensures Lv(PowP58(x)) % P() == Pow(Lv(x), (P() - 5) / 8) % P()
  {
    hide IsPow, Mul, Ok, Pow2, P250, Pow, PowBits, Lv, Appended, P;
    P250IsPow(x);
    PowBitsIsPow(x, [false, true], P250(x), Pow2(250) - 1);
    TwoBits(Pow2(250) - 1);
    Exponents();
    SameOf(PowP58(x), x, (P() - 5) / 8);
  }

  lemma Exponents()
    ensures 32 * (Pow2(250) - 1) + 11 == P() - 2 && 8 * (4 * (Pow2(250) - 1) + 1) == P() - 5
  {
    PrimeLiteral();
    Pow2Add(250, 5);
    assert Pow2(5) == 32;
  }

  lemma FiveBits(e: nat)
    ensures Appended(e, [false, true, false, true, true]) == 32 * e + 11
  {
    assert Appended(8 * e + 2, [true, true]) == 32 * e + 11 by {
      assert [true, true][1..] == [true];
      assert [true][1..] == [];
    }
    assert [false, true, false, true, true][1..] == [true, false, true, true];
    assert [true, false, true, true][1..] == [false, true, true];
    assert [false, true, true][1..] == [true, true];
  }

  lemma TwoBits(e: nat)
    ensures Appended(e, [false, true]) == 4 * e + 1
  {
    assert [false, true][1..] == [true];
    assert [true][1..] == [];
  }

  lemma SameOf(y: Fe, x: Fe, e: nat)
    requires IsPow(y, x, e)
    ensures P() > 1 && Lv(y) % P() == Pow(Lv(x), e) % P()
  {
    PositiveP();
    SameMod(Lv(y), Pow(Lv(x), e));
  }

  lemma PowIs(v: int, e: nat)
    ensures Pow(v, 0) == 1 && Pow(v, e + 1) == v * Pow(v, e)
  {}
}
