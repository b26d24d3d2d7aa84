/** Powers of two and the few facts about division and multiplication by a variable that the
    other modules need, each stated once. */
module Arith {

  function Pow2(n: nat): (p: nat)
    ensures p > 0
  {
    if n == 0 then 1 else 2 * Pow2(n - 1)
  }

  lemma {:induction false} Pow2Add(a: nat, b: nat)
    ensures Pow2(a + b) == Pow2(a) * Pow2(b)
  {
    if a == 0 {
    } else {
      Pow2Add(a - 1, b);
      assert Pow2(a + b) == 2 * Pow2(a - 1 + b);
      MulAssoc(2, Pow2(a - 1), Pow2(b));
    }
  }

  lemma Pow2Succ(n: nat)
    ensures Pow2(n + 1) == 2 * Pow2(n)
  {}

  lemma Pow2Mono(a: nat, b: nat)
    requires a <= b
    ensures Pow2(a) <= Pow2(b)
    ensures Pow2(b) == Pow2(a) * Pow2(b - a)
  {
    Pow2Add(a, b - a);
    MulMono(1, Pow2(b - a), Pow2(a));
  }

  lemma Pow2Strict(a: nat, b: nat)
    requires a < b
    ensures 2 * Pow2(a) <= Pow2(b)
  {
    Pow2Mono(a + 1, b);
  }

  lemma {:induction false} Pow2Exceeds(n: nat)
    ensures n < Pow2(n)
  {
    if n > 0 { Pow2Exceeds(n - 1); }
  }

  function Pow256(n: nat): (p: nat)
    ensures p > 0
  {
    if n == 0 then 1 else 256 * Pow256(n - 1)
  }

  lemma PowersOf256(n: nat)
    ensures Pow256(0) == 1 && Pow256(n + 1) == 256 * Pow256(n)
  {}

  /** Powers of two that occur as constants. */
  lemma Pow2Values()
    ensures Pow2(8) == 0x100 && Pow2(11) == 0x800 && Pow2(14) == 0x4000 && Pow2(16) == 0x1_0000
    ensures Pow2(17) == 0x2_0000 && Pow2(20) == 0x10_0000 && Pow2(30) == 0x4000_0000
    ensures Pow2(31) == 0x8000_0000 && Pow2(32) == 0x1_0000_0000
    ensures Pow2(52) == 0x10_0000_0000_0000 && Pow2(53) == 0x20_0000_0000_0000
    ensures Pow2(63) == 0x8000_0000_0000_0000 && Pow2(64) == 0x1_0000_0000_0000_0000
  {
    assert Pow2(4) == 16;
    assert Pow2(8) == 0x100;
    assert Pow2(11) == 0x800;
    assert Pow2(14) == 0x4000;
    assert Pow2(17) == 0x2_0000;
    assert Pow2(20) == 0x10_0000;
    Pow2Add(14, 16); Pow2Add(16, 16); Pow2Add(20, 32); Pow2Add(32, 32); Pow2Add(32, 31);
    assert Pow2(53) == 2 * Pow2(52);
  }

  lemma MulAssoc(a: int, b: int, c: int)
    ensures (a * b) * c == a * (b * c)
  {}

  /** The product of two natural numbers is one. */
  function Times(a: nat, b: nat): (r: nat)
    ensures r == a * b
  {
    MulMono(0, a, b);
    a * b
  }

  lemma MulMono(a: int, b: int, c: int)
    requires a <= b && 0 <= c
    ensures a * c <= b * c
    ensures c * a <= c * b
  {}

  lemma MulStrict(a: int, b: int, c: int)
    requires a < b && 0 < c
    ensures a * c < b * c
    ensures a * c + c <= b * c
  {
    assert b * c == a * c + (b - a) * c;
    MulMono(1, b - a, c);
  }

  /** x >> k. */
  function Shr(x: nat, k: nat): (r: nat)
    ensures r == x / Pow2(k)
  {
    DivMod(x, Pow2(k));
    x / Pow2(k)
  }

  /** The low k bits of x. */
  function Low(x: nat, k: nat): (r: nat)
    ensures r == x % Pow2(k) && r < Pow2(k)
  {
    DivMod(x, Pow2(k));
    x % Pow2(k)
  }

  /** Quotient and remainder are the only pair with a = q d + r and 0 <= r < d. */
  lemma DivModUnique(a: int, d: int, q: int, r: int)
    requires 0 < d && 0 <= r < d && a == q * d + r
    ensures a / d == q && a % d == r
  {
    var q', r' := a / d, a % d;
    assert a == q' * d + r';
    if q < q' { MulStrict(q, q', d); }
    if q' < q { MulStrict(q', q, d); }
  }

  lemma DivMod(a: int, d: int)
    requires 0 < d
    ensures a == (a / d) * d + a % d && 0 <= a % d < d
    ensures 0 <= a ==> 0 <= a / d
  {}

  lemma ModAddMultiple(a: int, q: int, d: int)
    requires 0 < d
    ensures (a + q * d) % d == a % d
  {
    DivMod(a, d);
    assert a + q * d == (a / d + q) * d + a % d;
    DivModUnique(a + q * d, d, a / d + q, a % d);
  }

  lemma ModSmall(a: int, d: int)
    requires 0 <= a < d
    ensures a % d == a && a / d == 0
  {
    DivModUnique(a, d, 0, a);
  }

  /** Reducing modulo a multiple first changes nothing. */
  lemma ModMod(a: int, p: int, e: int)
    requires 0 < p && 0 < e
    ensures 0 < p * e && (a % (p * e)) % p == a % p
  {
    MulMono(1, e, p);
    var q := a / (p * e);
    DivMod(a, p * e);
    assert q * (p * e) == (q * e) * p;
    ModAddMultiple(a % (p * e), q * e, p);
  }

  /** a < b d implies a / d < b. */
  lemma DivBelow(a: int, b: int, d: int)
    requires 0 < d && a < b * d
    ensures a / d < b
  {
    DivMod(a, d);
    if b <= a / d { MulMono(b, a / d, d); }
  }

  /** Dividing twice is dividing once by the product; the remainders nest. */
  lemma DivDiv(a: nat, c: nat, d: nat)
    requires 0 < c && 0 < d
    ensures 0 < c * d
    ensures a / (c * d) == (a / c) / d
    ensures a % (c * d) == a % c + c * ((a / c) % d)
  {
    var q, r := a / c, a % c;
    var s, t := q / d, q % d;
    MulMono(1, d, c);
    DivMod(a, c); DivMod(q, d);
    MulMono(t, d - 1, c);
    assert t * c + c <= d * c by { assert (d - 1) * c + c == d * c; }
    assert a == q * c + r;
    assert q * c == (s * d) * c + t * c;
    assert (s * d) * c == s * (c * d);
    DivModUnique(a, c * d, s, c * t + r);
  }
}
