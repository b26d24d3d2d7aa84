/** The binary64 specification of tools/check_f64_spec.py: doubles as 64-bit patterns, exact values
    as integers, one rounding. Every operation on finite operands is proved to be the infinitely
    precise result rounded by roundTiesToEven (IEEE 754-2019, section 4.3.1). */
module Binary64 {
  import opened Arith

  // ---- the encoding ----

  const TWO_31 := 0x8000_0000
  const TWO_32 := 0x1_0000_0000
  const TWO_52 := 0x10_0000_0000_0000
  const TWO_53 := 0x20_0000_0000_0000
  const TWO_64 := 0x1_0000_0000_0000_0000
  /** The bias of scaled exponents: m and x stand for m * 2^(x - Z). */
  const Z: nat := 3000
  const QNAN: nat := 0x7FF8_0000_0000_0000

  function B2N(b: bool): nat { if b then 1 else 0 }

  function Hi(d: nat): nat { d / TWO_32 }

  function Lo(d: nat): nat { d % TWO_32 }

  predicate Sign(d: nat) { Hi(d) >= TWO_31 }

  function Efield(d: nat): nat { (Hi(d) / 0x10_0000) % 0x800 }

  function Frac(d: nat): nat { Lo(d) + TWO_32 * (Hi(d) % 0x10_0000) }

  /** check_f64_spec.py:35-36; the two halves have no bit in common, so their `|` is a sum. */
  function Encode(s: bool, ef: nat, f: nat): nat {
    ((f / TWO_32 + 0x10_0000 * (ef + 0x800 * B2N(s))) % TWO_32) * TWO_32 + f % TWO_32
  }

  function Inf(s: bool): nat { if s then 0xFFF0_0000_0000_0000 else 0x7FF0_0000_0000_0000 }

  function Zero(s: bool): nat { if s then 0x8000_0000_0000_0000 else 0 }

  predicate IsNan(d: nat) { Efield(d) == 2047 && Frac(d) != 0 }

  predicate IsInf(d: nat) { Efield(d) == 2047 && Frac(d) == 0 }

  predicate IsZero(d: nat) { Efield(d) == 0 && Frac(d) == 0 }

  predicate Finite(d: nat) { d < TWO_64 && Efield(d) != 2047 }

  // ---- the exact value ----

  function Mant(d: nat): nat { Frac(d) + (if Efield(d) == 0 then 0 else TWO_52) }

  function Xexp(d: nat): (x: nat)
    ensures 1926 <= x <= 3972
  {
    if Efield(d) == 0 then Z - 1074 else Efield(d) + Z - 1075
  }

  /** The magnitude of a finite double, scaled by 2^Z. */
  function Mag(d: nat): nat {
    Mant(d) * Pow2(Xexp(d))
  }

  /** Nat.sub saturates. */
  function Nsub(a: nat, b: nat): nat { if a >= b then a - b else 0 }

  function BitLength(n: nat): (b: nat)
    ensures n < Pow2(b)
    ensures n > 0 ==> b > 0 && Pow2(b - 1) <= n
    ensures n == 0 ==> b == 0
  {
    if n == 0 then 0 else 1 + BitLength(n / 2)
  }

  function Isqrt(n: nat): (r: nat)
    ensures r * r <= n < (r + 1) * (r + 1)
  {
    if n == 0 then 0
    else
      var r := Isqrt(n - 1);
      if (r + 1) * (r + 1) <= n then r + 1 else r
  }

  // ---- rounding ----

  function RneUp(q: nat, r: nat, h: nat): nat {
    q + B2N(h < r || (r == h && q % 2 == 1))
  }

  function Rne(m: nat, k: nat): nat {
    if k == 0 then m else
    DivMod(m, Pow2(k));
    RneUp(m / Pow2(k), m % Pow2(k), Pow2(k - 1))
  }

  function PackE(s: bool, ef: nat, f: nat): nat {
    if 2047 <= ef then Inf(s) else Encode(s, ef, f)
  }

  function PackN(s: bool, q: nat, u: nat): nat {
    if q < TWO_52 then Encode(s, 0, q) else PackE(s, Nsub(u + 1075, Z), q % TWO_52)
  }

  function Pack(s: bool, q: nat, u: nat): nat {
    if q < TWO_53 then PackN(s, q, u) else PackE(s, Nsub(1 + u + 1075, Z), 0)
  }

  /** check_f64_spec.py:72: the unit of the result. */
  function Unit(m: nat, x: nat): nat {
    var a := Nsub(x + BitLength(m), 53);
    if a > Nsub(Z, 1074) then a else Nsub(Z, 1074)
  }

  /** check_f64_spec.py:67-72. */
  function Round(s: bool, m: nat, x: nat): nat {
    if m == 0 then Zero(s)
    else
      var u := Unit(m, x);
      Pack(s, if x <= u then Rne(m, Nsub(u, x)) else m * Pow2(Nsub(x, u)), u)
  }

  // ---- the operations ----

  function Align(d: nat, c: nat): (a: nat)
    requires c <= Xexp(d)
  {
    Mant(d) * Pow2(Xexp(d) - c)
  }

  function Least(a: nat, b: nat): nat { if a <= b then a else b }

  function SubMag(sa: bool, a: nat, sb: bool, b: nat, x: nat): nat {
    if a > b then Round(sa, a - b, x) else if a < b then Round(sb, b - a, x) else Zero(false)
  }

  function AddMag(sa: bool, a: nat, sb: bool, b: nat, x: nat): nat {
    if sa == sb then Round(sa, a + b, x) else SubMag(sa, a, sb, b, x)
  }

  /** check_f64_spec.py:77-93. */
  function AddFin(x: nat, y: nat): nat {
    var c := Least(Xexp(x), Xexp(y));
    AddMag(Sign(x), Align(x, c), Sign(y), Align(y, c), c)
  }

  function AddInf(x: nat, y: nat): nat {
    if IsInf(x) then (if IsInf(y) && Sign(x) != Sign(y) then QNAN else x)
    else if IsInf(y) then y else AddFin(x, y)
  }

  function Add(x: nat, y: nat): nat {
    if IsNan(x) || IsNan(y) then QNAN else AddInf(x, y)
  }

  function Neg(x: nat): nat { Encode(!Sign(x), Efield(x), Frac(x)) }

  function Sub(x: nat, y: nat): nat { Add(x, Neg(y)) }

  function MulInf(x: nat, y: nat, s: bool): nat {
    if IsInf(x) || IsInf(y) then (if IsZero(x) || IsZero(y) then QNAN else Inf(s))
    else Round(s, Mant(x) * Mant(y), Nsub(Xexp(x) + Xexp(y), Z))
  }

  function Mul(x: nat, y: nat): nat {
    if IsNan(x) || IsNan(y) then QNAN else MulInf(x, y, Sign(x) != Sign(y))
  }

  /** Guard bits of the quotient. */
  const KQ: nat := 200

  /** check_f64_spec.py:104-114. */
  function DivFin(x: nat, y: nat, s: bool): nat
    requires Mant(y) > 0
  {
    var n := Mant(x) * Pow2(KQ);
    DivMod(n, Mant(y));
    Round(s, 2 * (n / Mant(y)) + Least(n % Mant(y), 1), Nsub(Xexp(x) + Z, Xexp(y) + KQ + 1))
  }

  function DivCls(x: nat, y: nat, s: bool): nat {
    if IsInf(x) then (if IsInf(y) then QNAN else Inf(s))
    else if IsInf(y) then Zero(s)
    else if IsZero(y) then (if IsZero(x) then QNAN else Inf(s))
    else DivFin(x, y, s)
  }

  function Div(x: nat, y: nat): nat {
    if IsNan(x) || IsNan(y) then QNAN else DivCls(x, y, Sign(x) != Sign(y))
  }

  /** Guard bits of the square root. */
  const KR: nat := 100

  /** check_f64_spec.py:118-131. */
  function SqrtEven(m: nat, x: nat): nat {
    var n := m * Pow2(2 * KR);
    var r := Isqrt(n);
    Round(false, 2 * r + B2N(r * r != n), Nsub(x / 2 + Z / 2, KR + 1))
  }

  function SqrtFin(x: nat): nat {
    if Xexp(x) % 2 == 0 then SqrtEven(Mant(x), Xexp(x)) else SqrtEven(2 * Mant(x), Xexp(x) - 1)
  }

  function SqrtCls(x: nat): nat {
    if IsZero(x) then x else if Sign(x) then QNAN else if IsInf(x) then x else SqrtFin(x)
  }

  function Sqrt(x: nat): nat { if IsNan(x) then QNAN else SqrtCls(x) }

  // ---- comparisons ----

  function Cmp(a: nat, b: nat): int { B2N(a > b) as int - B2N(a < b) as int }

  function MagCmp(x: nat, y: nat): int {
    if IsInf(x) then (if IsInf(y) then 0 else 1)
    else if IsInf(y) then -1
    else
      var c := Least(Xexp(x), Xexp(y));
      Cmp(Align(x, c), Align(y, c))
  }

  /** check_f64_spec.py:144-147. */
  function Ord(x: nat, y: nat): int {
    if IsZero(x) && IsZero(y) then 0
    else if Sign(x) == Sign(y) then (if Sign(x) then -MagCmp(x, y) else MagCmp(x, y))
    else if Sign(x) then -1 else 1
  }

  // ---- roundTiesToEven ----

  function Abs(r: real): real { if r >= 0.0 then r else -r }

  /** The finite double d is at least as near to the scaled value v as e is, and where two doubles
      are equally near its significand is the even one. */
  ghost predicate Nearest(v: real, d: nat, e: nat) {
    var a, b := Abs(Mag(d) as real - v), Abs(Mag(e) as real - v);
    a <= b && (a == b && Mag(d) != Mag(e) ==> Frac(d) % 2 == 0)
  }

  /** 2^1023 (2 - 2^-53), scaled by 2^Z. */
  function Threshold(): nat { 0x3F_FFFF_FFFF_FFFF * Pow2(3970) }

  /** IEEE 754-2019, section 4.3.1: magnitudes from 2^1023 (2 - 2^-53) on round to infinity, all
      others to the nearest finite double, ties to the even significand. */
  ghost predicate RoundsTo(s: bool, v: real, d: nat) {
    if v >= Threshold() as real then d == Inf(s)
    else
      && Finite(d) && Sign(d) == s
      && forall e :: Finite(e) ==> Nearest(v, d, e)
  }

  // ---- encoding round trips ----

  lemma EncodeFields(s: bool, ef: nat, f: nat)
    requires ef < 2048 && f < TWO_52
    ensures var d := Encode(s, ef, f);
            d < TWO_64 && Sign(d) == s && Efield(d) == ef && Frac(d) == f
  {}

  lemma Fields(d: nat)
    requires d < TWO_64
    ensures Efield(d) < 2048 && Frac(d) < TWO_52
    ensures d == Encode(Sign(d), Efield(d), Frac(d))
  {}

  lemma FieldValue(d: nat)
    requires d < TWO_64
    ensures Efield(d) < 2048 && Frac(d) < TWO_52
    ensures d == 0x8000_0000_0000_0000 * B2N(Sign(d)) + TWO_52 * Efield(d) + Frac(d)
  {}

  // ---- what a bit pattern stands for ----

  /** Sign, exponent and fraction fill the bits from 63 down; infinities, zeros and the NaN that the
      operations return are the patterns of the standard. */
  lemma EncodeBits(s: bool, ef: nat, f: nat)
    requires ef < 2048 && f < TWO_52
    ensures Encode(s, ef, f) ==
            (if s then 0x8000_0000_0000_0000 else 0) + 0x10_0000_0000_0000 * ef + f
    ensures Inf(s) == Encode(s, 2047, 0) && Zero(s) == Encode(s, 0, 0)
    ensures QNAN == Encode(false, 2047, 0x8_0000_0000_0000)
    ensures TWO_52 == 0x10_0000_0000_0000 && TWO_53 == 0x20_0000_0000_0000 && TWO_64 == 0x1_0000_0000_0000_0000
  {
    var d := Encode(s, ef, f);
    EncodeFields(s, ef, f);
    FieldValue(d);
  }

  lemma Classes(s: bool, ef: nat, f: nat)
    requires ef < 2048 && f < TWO_52
    ensures var d := Encode(s, ef, f);
            && (IsNan(d) <==> ef == 2047 && f > 0) && (IsInf(d) <==> ef == 2047 && f == 0)
            && (IsZero(d) <==> ef == 0 && f == 0) && (Finite(d) <==> ef < 2047)
  {
    hide Encode, Efield, Frac, Sign;
    EncodeFields(s, ef, f);
  }

  /** A normal double is 2^(ef - 1023) (1 + f 2^-52), a subnormal one 2^-1022 (f 2^-52); magnitudes
      are scaled by 2^Z. */
  lemma EncodedValue(s: bool, ef: nat, f: nat)
    requires ef < 2047 && f < TWO_52
    ensures ef > 0 ==> Mag(Encode(s, ef, f)) * Pow2(1023 + 52) == (TWO_52 + f) * Pow2(ef + Z)
    ensures ef == 0 ==> Mag(Encode(s, ef, f)) * Pow2(1022 + 52) == f * Pow2(Z)
  {
    hide Pow2, Encode, Efield, Frac, Sign;
    EncodeFields(s, ef, f);
    var d := Encode(s, ef, f);
    if ef > 0 {
      Pow2Add(Xexp(d), 1075);
      MulAssoc(TWO_52 + f, Pow2(Xexp(d)), Pow2(1075));
    } else {
      Pow2Add(Xexp(d), 1074);
      MulAssoc(f, Pow2(Xexp(d)), Pow2(1074));
    }
  }

  /** The pattern of 1.0 stands for one, and the smallest positive one for 2^-1074. */
  lemma OneIsOne()
    ensures Mag(0x3FF0_0000_0000_0000) == Pow2(Z) && Mag(1) * Pow2(1074) == Pow2(Z)
  {
    hide Pow2, Encode, Mag;
    EncodeBits(false, 1023, 0); EncodeBits(false, 0, 1);
    EncodedValue(false, 1023, 0); EncodedValue(false, 0, 1);
    Pow2Add(52, 1023); Pow2Add(1023, Z); Pow2Values();
    var a: int, b: int, x, z: int := Pow2(52), Pow2(1023), Mag(0x3FF0_0000_0000_0000), Pow2(Z);
    assert Pow2(1075) == a * b && x * (a * b) == a * (b * z);
    OneFrom(x, a, b, z);
  }

  lemma OneFrom(x: int, a: int, b: int, z: int)
    requires a > 0 && b > 0 && x * (a * b) == a * (b * z)
    ensures x == z
  {
    MulAssoc(a, b, z); MulStrict(0, a, b);
    if x < z { MulStrict(x, z, a * b); }
    if z < x { MulStrict(z, x, a * b); }
  }

  /** The overflow threshold of IEEE 754-2019, section 4.3.1: 2^1024 less half a unit in the last
      place. */
  lemma ThresholdIs()
    ensures Threshold() == (2 * TWO_53 - 1) * Pow2(970 + Z)
  {
    hide Pow2;
  }

  /** A magnitude fits below 2^53 units of its own exponent; a normal one reaches 2^52 of them. */
  lemma MagBounds(d: nat)
    requires Finite(d)
    ensures Mant(d) < TWO_53
    ensures Efield(d) > 0 ==> Mant(d) >= TWO_52
    ensures Mag(d) < TWO_53 * Pow2(Xexp(d))
    ensures Xexp(d) <= 3971
  {
    hide Pow2;
    Fields(d);
    MulStrict(Mant(d), TWO_53, Pow2(Xexp(d)));
  }

  // ---- one rounding ----

  /** q units U are nearest to v, ties to the even q: the rounding of v to multiples of U. */
  ghost predicate Rounded(q: nat, U: nat, v: real) {
    && 2.0 * Abs((q * U) as real - v) <= U as real
    && (2.0 * Abs((q * U) as real - v) == U as real ==> q % 2 == 0)
  }

  /** What a significand m at exponent x says of v: exactly v, or with the last bit of m sticky. */
  ghost predicate Stands(m: nat, x: nat, v: real) {
    || v == (m * Pow2(x)) as real
    || (m % 2 == 1 && ((m - 1) * Pow2(x)) as real < v < ((m + 1) * Pow2(x)) as real)
  }

  /** Half a unit on either side of q U contains the integers a and b that enclose v. */
  lemma RoundedFrom(q: nat, U: nat, v: real, a: int, b: int)
    requires a as real <= v <= b as real
    requires 2 * b <= 2 * (q * U) + U && 2 * (q * U) <= 2 * a + U
    requires (2 * (q * U) == 2 * a + U && v == a as real) || (2 * b == 2 * (q * U) + U && v == b as real)
             ==> q % 2 == 0
    ensures Rounded(q, U, v)
  {
    var w: int := q * U;
    assert (2 * b) as real <= (2 * w + U) as real && (2 * w) as real <= (2 * a + U) as real;
  }

  /** With 2 h parts of size X to the unit U, where half a unit lies among the parts. */
  lemma Parts(Q: int, r: int, h: int, X: int)
    requires X > 0 && 0 <= r < 2 * h
    ensures var U := 2 * (h * X);
            && (Q * (2 * h) + r) * X == Q * U + r * X && r * X + X <= U && (Q + 1) * U == Q * U + U
            && (r < h ==> r * X + X <= h * X) && (h < r ==> h * X + X <= r * X)
  {
    MulAssoc(Q, 2 * h, X); MulAssoc(2, h, X);
    assert (Q * (2 * h) + r) * X == (Q * (2 * h)) * X + r * X;
    MulStrict(r, 2 * h, X);
    if r < h { MulStrict(r, h, X); }
    if h < r { MulStrict(h, r, X); }
  }

  /** Q units and r parts of m, and what rounding makes of them. */
  lemma RneParts(m: nat, x: nat, k: nat, U: nat) returns (Q: nat, r: nat, h: nat)
    requires k >= 1 && U == Pow2(x + k)
    ensures h == Pow2(k - 1) && (k >= 2 && m % 2 == 1 ==> r != h)
    ensures var X := Pow2(x);
            && U == 2 * (h * X) && m * X == Q * U + r * X
            && Rne(m, k) == RneUp(Q, r, h)
            && r * X + X <= U && (Q + 1) * U == Q * U + U
            && (r < h ==> r * X + X <= h * X) && (h < r ==> h * X + X <= r * X)
  {
    Pow2Add(k, x);
    DivMod(m, Pow2(k));
    Q, r, h := m / Pow2(k), m % Pow2(k), Pow2(k - 1);
    if k >= 2 && m % 2 == 1 { OddPart(m, k); }
    var X := Pow2(x);
    assert U == 2 * (h * X) by { MulAssoc(2, h, X); }
    Parts(Q, r, h, X);
  }

  lemma RneExact(m: nat, x: nat, k: nat)
    ensures Rounded(Rne(m, k), Pow2(x + k), (m * Pow2(x)) as real)
  {
    hide Rounded, Pow2, Rne;
    var v := m * Pow2(x);
    if k > 0 {
      var Q, r, h := RneParts(m, x, k, Pow2(x + k));
      RoundedFrom(Rne(m, k), Pow2(x + k), v as real, v, v);
    } else {
      assert Rne(m, 0) == m by { RneZero(m); }
      RoundedFrom(m, Pow2(x + k), v as real, v, v);
    }
  }

  lemma RneZero(m: nat)
    ensures Rne(m, 0) == m
  {}

  lemma RneSticky(m: nat, x: nat, k: nat, v: real)
    requires k >= 2 && m % 2 == 1
    requires ((m - 1) * Pow2(x)) as real < v < ((m + 1) * Pow2(x)) as real
    ensures Rounded(Rne(m, k), Pow2(x + k), v)
  {
    hide Rounded, Pow2, Rne;
    var Q, r, h := RneParts(m, x, k, Pow2(x + k));
    SumTimes(m, 1, Pow2(x));
    RoundedFrom(Rne(m, k), Pow2(x + k), v, (m - 1) * Pow2(x), (m + 1) * Pow2(x));
  }

  /** An odd number of parts never ends on half a unit. */
  lemma OddPart(m: nat, k: nat)
    requires k >= 2 && m % 2 == 1
    ensures m % Pow2(k) != Pow2(k - 1)
  {
    var t := Pow2(k - 2);
    DivMod(m, Pow2(k));
    assert m / Pow2(k) * Pow2(k) == 4 * (m / Pow2(k) * t);
  }

  /** Rounding to 53 bits, or to the fixed unit of the subnormals, of any value the significand
      stands for. */
  lemma RoundedToUnit(m: nat, x: nat, v: real)
    requires m > 0 && Stands(m, x, v)
    requires v != (m * Pow2(x)) as real ==> x + 2 <= Unit(m, x)
    ensures var u := Unit(m, x);
            var q := if x <= u then Rne(m, Nsub(u, x)) else m * Pow2(Nsub(x, u));
            Rounded(q, Pow2(u), v)
  {
    hide Rounded, Rne;
    var u := Unit(m, x);
    if x <= u {
      if v == (m * Pow2(x)) as real { RneExact(m, x, u - x); } else { RneSticky(m, x, u - x, v); }
    } else {
      Pow2Add(x - u, u);
      MulAssoc(m, Pow2(x - u), Pow2(u));
      ExactRounded(m * Pow2(x - u), Pow2(u), v);
    }
  }

  lemma ExactRounded(q: nat, U: nat, v: real)
    requires U > 0 && v == (q * U) as real
    ensures Rounded(q, U, v)
  {}

  /** The unit leaves 53 bits. */
  lemma UnitAbove(m: nat, x: nat)
    ensures var u := Unit(m, x); u >= 1926 && (m + 1) * Pow2(x) <= TWO_53 * Pow2(u)
  {
    hide Pow2, BitLength;
    var u, b := Unit(m, x), BitLength(m);
    Pow2Values(); Pow2Add(53, u); Pow2Add(b, x); Pow2Mono(b + x, u + 53);
    MulMono(m + 1, Pow2(b), Pow2(x));
  }

  /** All 53 of them where it exceeds the subnormals' unit. */
  lemma UnitBelow(m: nat, x: nat, n: nat)
    requires m > 0 && Unit(m, x) > 1926 && Pow2(BitLength(m) - 1) <= n
    ensures TWO_52 * Pow2(Unit(m, x)) <= n * Pow2(x)
  {
    hide Pow2, BitLength;
    var u, b := Unit(m, x), BitLength(m);
    Pow2Values(); Pow2Add(52, u); Pow2Add(b - 1, x);
    MulMono(Pow2(b - 1), n, Pow2(x));
  }

  lemma UnitSpan(m: nat, x: nat)
    requires m > 0
    ensures var u := Unit(m, x);
            && u >= 1926 && (m + 1) * Pow2(x) <= TWO_53 * Pow2(u)
            && (u > 1926 ==> TWO_52 * Pow2(u) <= m * Pow2(x))
            && (u > 1926 && x + 2 <= u && m % 2 == 1 ==> TWO_52 * Pow2(u) <= (m - 1) * Pow2(x))
  {
    hide Pow2, BitLength;
    UnitAbove(m, x);
    if Unit(m, x) > 1926 {
      UnitBelow(m, x, m);
      if x + 2 <= Unit(m, x) && m % 2 == 1 {
        Pow2Succ(BitLength(m) - 2);
        UnitBelow(m, x, m - 1);
      }
    }
  }

  lemma UnitBounds(m: nat, x: nat, v: real)
    requires m > 0 && Stands(m, x, v)
    requires v != (m * Pow2(x)) as real ==> x + 2 <= Unit(m, x)
    ensures var u := Unit(m, x);
            && u >= 1926 && 0.0 <= v < (TWO_53 * Pow2(u)) as real
            && (u > 1926 ==> (TWO_52 * Pow2(u)) as real <= v)
  {
    hide Pow2, Unit;
    UnitSpan(m, x);
    var X := Pow2(x);
    MulMono(0, m - 1, X);
    assert (m - 1) * X == m * X - X && (m + 1) * X == m * X + X;
  }

  lemma EncodeMag(s: bool, ef: nat, f: nat)
    requires ef < 2047 && f < TWO_52
    ensures var d := Encode(s, ef, f);
            Finite(d) && Sign(d) == s && Frac(d) == f
            && Mag(d) == if ef == 0 then f * Pow2(1926) else (f + TWO_52) * Pow2(ef + 1925)
  {
    hide Encode, Frac, Efield, Sign, Pow2;
    EncodeFields(s, ef, f);
  }

  /** Packing keeps the value and the sign; it overflows exactly from 2^1024 on. */
  lemma PackValue(s: bool, q: nat, u: nat)
    requires 1926 <= u && q <= TWO_53 && (u > 1926 ==> TWO_52 <= q)
    ensures var d := Pack(s, q, u);
            if u >= 3972 || (u == 3971 && q == TWO_53) then d == Inf(s)
            else Finite(d) && Sign(d) == s && Mag(d) == q * Pow2(u) && Frac(d) % 2 == q % 2
  {
    hide Encode, Inf, Frac, Sign, Mag, Pow2, Finite;
    if q == TWO_53 {
      if u < 3971 {
        EncodeMag(s, u - 1924, 0);
        Pow2Succ(u);
      }
    } else if q >= TWO_52 {
      if u < 3972 {
        EncodeMag(s, u - 1925, q - TWO_52);
      }
    } else {
      EncodeMag(s, 0, q);
    }
  }

  /** Every finite magnitude is a multiple of the unit or below 2^52 units. */
  lemma GridGap(e: nat, u: nat)
    requires Finite(e) && u >= 1926
    ensures (exists j: nat :: Mag(e) == j * Pow2(u)) || (u > 1926 && Mag(e) < TWO_52 * Pow2(u))
  {
    hide Efield, Frac, Mant, Pow2, Finite;
    var x := Xexp(e);
    if x >= u {
      Pow2Add(x - u, u);
      MulAssoc(Mant(e), Pow2(x - u), Pow2(u));
      assert Mag(e) == (Mant(e) * Pow2(x - u)) * Pow2(u);
    } else {
      MagBounds(e);
      Pow2Strict(x, u);
    }
  }

  /** A value rounded to q units, in the range of 53-bit significands, is nearest among all doubles. */
  lemma NearestFromRounded(d: nat, e: nat, q: nat, u: nat, v: real)
    requires Finite(d) && Finite(e) && u >= 1926
    requires Mag(d) == q * Pow2(u) && Frac(d) % 2 == q % 2 && Rounded(q, Pow2(u), v)
    requires u > 1926 ==> TWO_52 <= q && (TWO_52 * Pow2(u)) as real <= v
    ensures Nearest(v, d, e)
  {
    hide Mag, Frac, Finite, Pow2;
    GridGap(e, u);
    var U := Pow2(u);
    if j: nat :| Mag(e) == j * U {
      if j < q { MulStrict(j, q, U); }
      if q < j { MulStrict(q, j, U); }
    } else {
      if TWO_52 < q { MulStrict(TWO_52, q, U); }
    }
  }

  /** With the unit 2 h the values from (2^54 - 1) h on round to 2^53 units. */
  lemma OverflowAt(q: nat, h: int, v: real)
    requires h > 0 && q <= TWO_53 && Rounded(q, 2 * h, v) && v < (TWO_53 * (2 * h)) as real
    ensures q == TWO_53 <==> v >= (0x3F_FFFF_FFFF_FFFF * h) as real
  {
    if q < TWO_53 - 1 { MulMono(q, TWO_53 - 2, 2 * h); }
  }

  /** Where the rounded significand overflows, and where the value reaches the overflow threshold. */
  lemma Overflow(q: nat, u: nat, v: real)
    requires 1926 <= u && q <= TWO_53 && Rounded(q, Pow2(u), v)
    requires 0.0 <= v < (TWO_53 * Pow2(u)) as real
    requires u > 1926 ==> (TWO_52 * Pow2(u)) as real <= v
    ensures u >= 3972 || (u == 3971 && q == TWO_53) <==> v >= Threshold() as real
  {
    hide Pow2, Rounded;
    var U, h: int := Pow2(u), Pow2(3970);
    if u >= 3972 {
      Pow2Mono(3972, u);
      Pow2Succ(3970); Pow2Succ(3971);
    } else if u == 3971 {
      Pow2Succ(3970);
      OverflowAt(q, h, v);
    } else {
      Pow2Mono(u, 3970);
    }
  }

  /** At most 2^53 units, and at least 2^52 above the subnormals' unit. */
  lemma RoundedSpan(q: nat, u: nat, v: real)
    requires u >= 1926 && Rounded(q, Pow2(u), v)
    requires 0.0 <= v < (TWO_53 * Pow2(u)) as real
    requires u > 1926 ==> (TWO_52 * Pow2(u)) as real <= v
    ensures q <= TWO_53 && (u > 1926 ==> TWO_52 <= q)
  {
    hide Pow2;
    var U := Pow2(u);
    if TWO_53 < q { MulStrict(TWO_53, q, U); }
    if q < TWO_52 { MulStrict(q, TWO_52, U); }
  }

  /** The rounding of the source is roundTiesToEven of every value its significand stands for. */
  lemma RoundCorrect(s: bool, m: nat, x: nat, v: real)
    requires Stands(m, x, v)
    requires v != (m * Pow2(x)) as real ==> x + 2 <= Unit(m, x)
    ensures RoundsTo(s, v, Round(s, m, x))
  {
    hide Pow2, Unit, Stands, Rounded, Rne, Pack, Finite, Nearest, Sign, Inf, Mag, Frac, Threshold;
    if m == 0 {
      RoundZero(s, x, v);
    } else {
      var u := Unit(m, x);
      var q := if x <= u then Rne(m, Nsub(u, x)) else m * Pow2(Nsub(x, u));
      UnitBounds(m, x, v);
      RoundedToUnit(m, x, v);
      RoundedSpan(q, u, v);
      Overflow(q, u, v);
      PackValue(s, q, u);
      var d := Pack(s, q, u);
      if v < Threshold() as real {
        forall e | Finite(e) ensures Nearest(v, d, e) { NearestFromRounded(d, e, q, u, v); }
      }
    }
  }

  lemma RoundZero(s: bool, x: nat, v: real)
    requires Stands(0, x, v)
    ensures RoundsTo(s, v, Zero(s))
  {
    hide Pow2;
    assert Frac(Zero(s)) == 0 && Efield(Zero(s)) == 0 && Sign(Zero(s)) == s;
    assert Mag(Zero(s)) == 0;
  }

  // ---- what rounding determines ----

  lemma FieldOrder(d: nat, e: nat)
    requires d < TWO_64 && e < TWO_64 && Sign(d) == Sign(e) && d < e
    ensures Efield(d) < Efield(e) || (Efield(d) == Efield(e) && Frac(d) < Frac(e))
  {
    hide Sign, Efield, Frac;
    FieldValue(d); FieldValue(e);
  }

  /** Among doubles of one sign the magnitude is strictly increasing in the bit pattern. */
  lemma MagStrict(d: nat, e: nat)
    requires Finite(d) && Finite(e) && Sign(d) == Sign(e) && d < e
    ensures Mag(d) < Mag(e)
  {
    hide Pow2, Efield, Frac, Sign;
    FieldOrder(d, e);
    Fields(d);
    MagBounds(d); MagBounds(e);
    var x, y := Xexp(d), Xexp(e);
    if Efield(d) == Efield(e) {
      MulStrict(Mant(d), Mant(e), Pow2(x));
    } else if Efield(d) == 0 {
      Pow2Mono(x, y);
      MulStrict(Mant(d), TWO_52, Pow2(x));
      MulMono(TWO_52, Mant(e), Pow2(y));
    } else {
      Pow2Strict(x, y);
      MulMono(TWO_52, Mant(e), Pow2(y));
    }
  }

  /** Sign and magnitude determine a finite double. */
  lemma MagInjective(d: nat, e: nat)
    requires Finite(d) && Finite(e) && Sign(d) == Sign(e) && Mag(d) == Mag(e)
    ensures d == e
  {
    hide Mag, Finite, Sign;
    if d < e { MagStrict(d, e); }
    if e < d { MagStrict(e, d); }
  }

  /** The next bit pattern after an even significand has the odd one above it. */
  lemma NextPattern(d: nat, e: nat)
    requires Finite(d) && Finite(e) && Sign(d) == Sign(e) && d < e && Frac(d) % 2 == 0
    ensures Finite(d + 1) && Sign(d + 1) == Sign(d) && Frac(d + 1) == Frac(d) + 1
  {}

  /** Between two doubles with even significands lies another one. */
  lemma Between(d: nat, e: nat)
    requires Finite(d) && Finite(e) && Sign(d) == Sign(e) && Mag(d) < Mag(e)
    requires Frac(d) % 2 == 0 && Frac(e) % 2 == 0
    ensures exists f :: Finite(f) && Mag(d) < Mag(f) < Mag(e)
  {
    hide Mag, Frac, Sign, Finite;
    if e <= d {
      if e < d { MagStrict(e, d); }
    } else {
      NextPattern(d, e);
      MagStrict(d, d + 1); MagStrict(d + 1, e);
    }
  }

  /** roundTiesToEven determines the result. */
  lemma RoundsToUnique(s: bool, v: real, d: nat, e: nat)
    requires v >= 0.0 && RoundsTo(s, v, d) && RoundsTo(s, v, e)
    ensures d == e
  {
    hide Mag, Finite, Sign, Frac, Threshold;
    if v < Threshold() as real {
      if Mag(d) == Mag(e) {
        MagInjective(d, e);
      } else {
        assert Nearest(v, d, e) && Nearest(v, e, d);
        if Mag(d) < Mag(e) { Between(d, e); } else { Between(e, d); }
      }
    }
  }

  lemma OtherMagnitudes(d: nat, e: nat)
    requires Finite(d) && Finite(d + 1) && Sign(d + 1) == Sign(d) && Finite(e)
    ensures Mag(e) <= Mag(d) || Mag(e) >= Mag(d + 1)
  {
    hide Mag, Frac, Efield, Sign, Encode;
    var f := Encode(Sign(d), Efield(e), Frac(e));
    Fields(e);
    EncodeFields(Sign(d), Efield(e), Frac(e));
    assert Mag(f) == Mag(e) by { SameFields(e, f); }
    if f < d { MagStrict(f, d); }
    if d + 1 < f { MagStrict(d + 1, f); }
  }

  lemma SameFields(d: nat, e: nat)
    requires Efield(d) == Efield(e) && Frac(d) == Frac(e)
    ensures Mag(d) == Mag(e)
  {}

  lemma EvenPattern(d: nat)
    requires d < TWO_64
    ensures Frac(d) % 2 == d % 2
  {
    hide Frac, Efield, Sign;
    FieldValue(d);
  }

  /** Between two neighbouring doubles a value rounds to the nearer one, and from halfway to the one
      with the even pattern. */
  lemma RoundBetween(s: bool, d: nat, v: real)
    requires Finite(d) && Finite(d + 1) && Sign(d) == s && Sign(d + 1) == s
    requires Mag(d) as real <= v <= Mag(d + 1) as real
    ensures var twice, sum := 2.0 * v, (Mag(d) + Mag(d + 1)) as real;
            RoundsTo(s, v, if twice < sum then d else if twice > sum then d + 1 else if d % 2 == 0 then d else d + 1)
  {
    hide Mag, Frac, Efield, Sign, Threshold;
    MagBelowThreshold(d + 1);
    MagStrict(d, d + 1);
    EvenPattern(d); EvenPattern(d + 1);
    var twice, sum := 2.0 * v, (Mag(d) + Mag(d + 1)) as real;
    var r := if twice < sum then d else if twice > sum then d + 1 else if d % 2 == 0 then d else d + 1;
    forall e | Finite(e) ensures Nearest(v, r, e) { OtherMagnitudes(d, e); }
  }

  /** Beyond the largest double a value rounds to it below the threshold and to infinity from there on. */
  lemma RoundBeyond(s: bool, v: real)
    requires v >= Mag(Inf(s) - 1) as real
    ensures RoundsTo(s, v, if v < Threshold() as real then Inf(s) - 1 else Inf(s))
  {
    hide Pow2, Mag, Threshold;
    var d := Inf(s) - 1;
    assert Finite(d) && Sign(d) == s by { LargestFinite(s); }
    forall e | Finite(e) ensures Mag(e) <= Mag(d) { LargestMagnitude(s, e); }
    if v < Threshold() as real {
      forall e | Finite(e) ensures Nearest(v, d, e) {
        if Mag(e) != Mag(d) { assert Mag(e) < Mag(d); }
      }
    }
  }

  lemma LargestFinite(s: bool)
    ensures Finite(Inf(s) - 1) && Sign(Inf(s) - 1) == s
  {}

  lemma LargestMagnitude(s: bool, e: nat)
    requires Finite(e)
    ensures Mag(e) <= Mag(Inf(s) - 1)
  {
    hide Mag, Frac, Efield, Sign, Encode;
    LargestFinite(s);
    var f := Encode(s, Efield(e), Frac(e));
    Fields(e);
    EncodeFields(s, Efield(e), Frac(e));
    assert Mag(f) == Mag(e) by { SameFields(e, f); }
    BelowInf(s, f);
    if f < Inf(s) - 1 { MagStrict(f, Inf(s) - 1); }
  }

  /** Rounding a finite double's own exact value gives that double back. */
  lemma RoundIdentity(d: nat)
    requires Finite(d)
    ensures Round(Sign(d), Mant(d), Xexp(d)) == d
  {
    hide Mag, Finite, Sign, Frac, Threshold, Round;
    var v := Mag(d) as real;
    MagIsValue(d);
    RoundCorrect(Sign(d), Mant(d), Xexp(d), v);
    MagBelowThreshold(d);
    var r := Round(Sign(d), Mant(d), Xexp(d));
    assert Nearest(v, r, d);
    MagInjective(r, d);
  }

  lemma MagIsValue(d: nat)
    ensures Stands(Mant(d), Xexp(d), Mag(d) as real)
    ensures Mag(d) == Mant(d) * Pow2(Xexp(d))
  {
    hide Pow2;
  }

  lemma MagBelowThreshold(d: nat)
    requires Finite(d)
    ensures Mag(d) < Threshold()
  {
    hide Pow2, Mag, Finite;
    MagBounds(d);
    Pow2Mono(Xexp(d), 3971);
    Pow2Succ(3970);
    MulMono(Pow2(Xexp(d)), Pow2(3971), TWO_53 - 1);
    MulMono(Mant(d), TWO_53 - 1, Pow2(Xexp(d)));
    MagIsValue(d);
  }

  /** Rounding is monotone in the value; as magnitudes (the low 63 bits) infinity comes last. */
  lemma RoundsToMonotone(s: bool, v: real, w: real, d: nat, e: nat)
    requires 0.0 <= v <= w && RoundsTo(s, v, d) && RoundsTo(s, w, e)
    ensures d <= e
  {
    hide Mag, Sign, Frac, Threshold;
    if w < Threshold() as real {
      if e < d {
        MagStrict(e, d);
        assert Nearest(v, d, e) && Nearest(w, e, d);
        assert v == w;
        RoundsToUnique(s, v, d, e);
      }
    } else if v < Threshold() as real {
      BelowInf(s, d);
    }
  }

  lemma BelowInf(s: bool, d: nat)
    requires Finite(d) && Sign(d) == s
    ensures d < Inf(s)
  {
    Fields(d);
  }

  // ---- the operations are correctly rounded ----

  /** The signed exact value of a finite double, scaled by 2^Z. */
  function Val(d: nat): int { if Sign(d) then 0 - Mag(d) else Mag(d) }

  function Magnitude(v: int): (r: nat)
    ensures r == v || r == -v
  {
    if v < 0 then -v else v
  }

  lemma SignedValue(s: bool, ef: nat, f: nat)
    requires ef < 2047 && f < TWO_52
    ensures var d := Encode(s, ef, f); Val(d) == if s then 0 - Mag(d) else Mag(d)
  {
    hide Encode, Mag, Sign;
    EncodeFields(s, ef, f);
  }

  lemma AlignMag(d: nat, c: nat)
    requires c <= Xexp(d)
    ensures Align(d, c) * Pow2(c) == Mag(d)
  {
    hide Pow2, Mant, Xexp;
    Pow2Add(Xexp(d) - c, c);
    MulAssoc(Mant(d), Pow2(Xexp(d) - c), Pow2(c));
  }

  /** Addition rounds the exact sum; an exact zero sum is +0 unless both operands are negative. */
  lemma AddCorrect(x: nat, y: nat)
    requires Finite(x) && Finite(y)
    ensures var v := Val(x) + Val(y);
            var s := if v == 0 then Sign(x) && Sign(y) else v < 0;
            RoundsTo(s, Magnitude(v) as real, Add(x, y))
  {
    hide Pow2, Mag, RoundsTo, Round, Zero, Xexp, Align, Sign, Efield, Frac, AddMag;
    var c := Least(Xexp(x), Xexp(y));
    AlignMag(x, c); AlignMag(y, c);
    AddMagCorrect(Sign(x), Align(x, c), Sign(y), Align(y, c), c);
  }

  function Signed(s: bool, m: nat): int { if s then 0 - m else m }

  lemma AddMagCorrect(sa: bool, a: nat, sb: bool, b: nat, c: nat)
    ensures var v := Signed(sa, a * Pow2(c)) + Signed(sb, b * Pow2(c));
            var s := if v == 0 then sa && sb else v < 0;
            RoundsTo(s, Magnitude(v) as real, AddMag(sa, a, sb, b, c))
  {
    hide Pow2, RoundsTo, Round, Zero;
    AlignOrder(a, b, Pow2(c));
    SumTimes(a, b, Pow2(c));
    if sa == sb { RoundSum(sa, a + b, c); }
    if a > b { RoundSum(sa, a - b, c); }
    if a < b { RoundSum(sb, b - a, c); }
    ZeroSum();
    if sa == sb { PositiveTimes(a + b, Pow2(c)); }
  }

  lemma SumTimes(a: int, b: int, C: int)
    ensures (a + b) * C == a * C + b * C && (a - b) * C == a * C - b * C && (b - a) * C == b * C - a * C
  {}

  lemma PositiveTimes(a: int, C: int)
    requires a >= 0 && C > 0
    ensures a * C >= 0 && (a * C == 0 ==> a == 0)
  {
    if a > 0 { MulStrict(0, a, C); }
  }

  lemma RoundSum(s: bool, m: nat, x: nat)
    ensures RoundsTo(s, (m * Pow2(x)) as real, Round(s, m, x))
  {
    hide Pow2, Round, RoundsTo;
    RoundCorrect(s, m, x, (m * Pow2(x)) as real);
  }

  lemma ZeroSum()
    ensures RoundsTo(false, 0.0, Zero(false))
  {
    hide Pow2, RoundsTo;
    RoundZero(false, 0, 0.0);
  }

  lemma MulScale(m: nat, x: nat, n: nat, y: nat)
    requires x + y >= Z
    ensures ((m * n) * Pow2(x + y - Z)) * Pow2(Z) == (m * Pow2(x)) * (n * Pow2(y))
  {
    hide Pow2;
    Pow2Add(x + y - Z, Z); Pow2Add(x, y);
    ProductOf(m, Pow2(x), n, Pow2(y));
    MulAssoc(m * n, Pow2(x + y - Z), Pow2(Z));
  }

  /** Multiplication rounds the exact product: v 2^Z = Mag(x) Mag(y). */
  lemma MulCorrect(x: nat, y: nat, v: real)
    requires Finite(x) && Finite(y)
    requires v * Pow2(Z) as real == (Mag(x) * Mag(y)) as real
    ensures RoundsTo(Sign(x) != Sign(y), v, Mul(x, y))
  {
    hide Pow2, Xexp, Mant, RoundsTo, Round, Sign;
    var m, X := Mant(x) * Mant(y), Xexp(x) + Xexp(y) - Z;
    XexpRange(x); XexpRange(y);
    MulScale(Mant(x), Xexp(x), Mant(y), Xexp(y));
    var w: int := m * Pow2(X);
    RealProduct(w, Pow2(Z));
    CancelReal(v, w as real, Pow2(Z) as real);
    RoundSum(Sign(x) != Sign(y), m, X);
  }

  lemma XexpRange(d: nat)
    ensures 1926 <= Xexp(d) <= 3972
  {}

  lemma ProductOf(a: int, b: int, c: int, d: int)
    ensures (a * b) * (c * d) == (a * c) * (b * d)
  {
    MulAssoc(a * b, c, d); MulAssoc(a, b, c); MulAssoc(a, c, b); MulAssoc(a * c, b, d);
  }

  lemma RealProduct(a: int, b: int)
    ensures a as real * b as real == (a * b) as real
  {}

  lemma CancelReal(a: real, b: real, c: real)
    requires c != 0.0 && a * c == b * c
    ensures a == b
  {}

  /** A strict order of multiples by a positive factor is that of the factors. */
  lemma CancelLess(a: real, b: real, c: real)
    requires c > 0.0 && a * c < b * c
    ensures a < b
  {}

  /** 55 bits or more put two bits below the unit. */
  lemma UnitWide(m: nat, x: nat)
    requires m >= Pow2(54)
    ensures m > 0 && x + 2 <= Unit(m, x)
  {
    hide Pow2, BitLength;
    if BitLength(m) <= 54 { Pow2Mono(BitLength(m), 54); }
  }

  lemma QuotientParts(q: int, d: int, r: int, Y: int)
    ensures 2 * ((q * d + r) * Y) == ((2 * q) * Y) * d + 2 * (r * Y)
    ensures ((2 * q + 2) * Y) * d == ((2 * q) * Y) * d + 2 * (d * Y)
  {
    MulAssoc(2 * q, d, Y); MulAssoc(2 * q, Y, d); MulAssoc(2, Y, d); MulAssoc(2, q, d);
    assert (q * d + r) * Y == (q * d) * Y + r * Y;
    MulAssoc(q, d, Y); MulAssoc(2, q, d * Y); MulAssoc(2 * q, d, Y);
    assert (2 * q + 2) * Y == (2 * q) * Y + 2 * Y;
  }

  /** v d = w orders v against a and b as w is ordered against their products with d. */
  lemma QuotientOrder(a: int, b: int, w: int, d: int, v: real)
    requires d > 0 && v * d as real == w as real
    ensures a * d == w ==> v == a as real
    ensures a * d < w ==> (a as real) < v
    ensures w < b * d ==> v < b as real
  {
    RealProduct(a, d); RealProduct(b, d);
    if a * d == w { CancelReal(v, a as real, d as real); }
    if a * d < w { CancelLess(a as real, v, d as real); }
    if w < b * d { CancelLess(v, b as real, d as real); }
  }

  /** Twice the truncated quotient with a sticky bit stands for the exact quotient. */
  lemma QuotientStands(n: nat, d: nat, x: nat, v: real)
    requires d > 0 && v * d as real == (2 * (n * Pow2(x))) as real
    ensures Stands(2 * (n / d) + Least(n % d, 1), x, v)
  {
    hide Pow2, Stands;
    var Y: int := Pow2(x);
    DivMod(n, d);
    var q, r := n / d, n % d;
    QuotientParts(q, d, r, Y);
    QuotientOrder((2 * q) * Y, (2 * q + 2) * Y, 2 * (n * Y), d, v);
    if r == 0 {
      StandsExact(2 * q, x, v);
    } else {
      MulStrict(0, r, Y); MulStrict(r, d, Y);
      StandsBetween(2 * q + 1, x, v);
    }
  }

  lemma StandsExact(m: nat, x: nat, v: real)
    requires v == (m * Pow2(x)) as real
    ensures Stands(m, x, v)
  {}

  lemma StandsBetween(m: nat, x: nat, v: real)
    requires m % 2 == 1 && ((m - 1) * Pow2(x)) as real < v < ((m + 1) * Pow2(x)) as real
    ensures Stands(m, x, v)
  {}

  /** A quotient of 253 bits by 53 has 55 bits to spare. */
  lemma QuotientWide(m: nat, d: nat)
    requires 0 < m && 0 < d < TWO_53
    ensures 2 * ((m * Pow2(KQ)) / d) >= Pow2(54)
  {
    hide Pow2;
    Pow2Values(); Pow2Succ(53); Pow2Add(53, 53); Pow2Strict(106, 200);
    var n := m * Pow2(KQ);
    MulMono(1, m, Pow2(KQ));
    DivMod(n, d);
    var q := n / d;
    MulMono(d, TWO_53, TWO_53);
    if q < TWO_53 { MulMono(q + 1, TWO_53, d); }
  }

  /** Division rounds the exact quotient: v Mag(y) = 2^Z Mag(x). */
  lemma DivCorrect(x: nat, y: nat, v: real)
    requires Finite(x) && Finite(y) && !IsZero(y)
    requires v * Mag(y) as real == (Mag(x) * Pow2(Z)) as real
    ensures RoundsTo(Sign(x) != Sign(y), v, Div(x, y))
  {
    hide Pow2, Xexp, Mant, RoundsTo, Round, Sign, Stands, Efield, Frac, Unit;
    MantPositive(y); MagBounds(y);
    XexpRange(x); XexpRange(y);
    var d, n, X := Mant(y), Mant(x) * Pow2(KQ), Xexp(x) + Z - (Xexp(y) + KQ + 1);
    DivScale(Mant(x), Xexp(x), d, Xexp(y), X, v);
    QuotientStands(n, d, X, v);
    DivMod(n, d);
    var m := 2 * (n / d) + Least(n % d, 1);
    if Mant(x) > 0 {
      QuotientWide(Mant(x), d);
      UnitWide(m, X);
    } else {
      ModSmall(0, d);
      ZeroStands(X, v);
    }
    RoundCorrect(Sign(x) != Sign(y), m, X, v);
  }

  lemma MantPositive(d: nat)
    requires Finite(d) && !IsZero(d)
    ensures Mant(d) > 0
  {}

  lemma ZeroStands(x: nat, v: real)
    requires Stands(0, x, v)
    ensures v == (0 * Pow2(x)) as real
  {}

  /** The quotient with its guard bits, cleared of the denominator's exponent. */
  lemma DivScaleInt(m: nat, x: nat, y: nat, X: nat)
    requires x + Z == X + y + KQ + 1
    ensures (2 * ((m * Pow2(KQ)) * Pow2(X))) * Pow2(y) == (m * Pow2(x)) * Pow2(Z)
  {
    hide Pow2;
    Pow2Add(x, Z); Pow2Add(KQ, X); Pow2Succ(KQ + X); Pow2Add(KQ + X + 1, y);
    MulAssoc(m, Pow2(KQ), Pow2(X)); MulAssoc(m, Pow2(x), Pow2(Z));
    var a, b: int := Pow2(KQ + X), Pow2(y);
    MulAssoc(m, 2 * a, b); MulAssoc(2, m, a); MulAssoc(m, 2, a);
  }

  lemma DivScale(m: nat, x: nat, d: nat, y: nat, X: nat, v: real)
    requires x + Z == X + y + KQ + 1
    requires v * (d * Pow2(y)) as real == ((m * Pow2(x)) * Pow2(Z)) as real
    ensures v * d as real == (2 * ((m * Pow2(KQ)) * Pow2(X))) as real
  {
    hide Pow2;
    var e: int, w: int, z: int := Pow2(y), 2 * ((m * Pow2(KQ)) * Pow2(X)), (m * Pow2(x)) * Pow2(Z);
    assert w * e == z by { DivScaleInt(m, x, y, X); }
    CancelFactor(v, d, e, w, z);
  }

  lemma CancelFactor(v: real, d: int, e: int, w: int, z: int)
    requires e > 0 && w * e == z && v * (d * e) as real == z as real
    ensures v * d as real == w as real
  {
    RealProduct(w, e); RealProduct(d, e);
    RealAssoc(v, d as real, e as real);
    CancelReal(v * d as real, w as real, e as real);
  }

  lemma RealAssoc(a: real, b: real, c: real)
    ensures a * (b * c) == (a * b) * c
  {}

  lemma SquareOrder(a: int, b: int)
    requires 0 <= a && 0 <= b
    ensures a * a < b * b <==> a < b
  {
    if a < b { MulMono(a, b, a); MulStrict(a, b, b); } else { MulMono(b, a, b); MulMono(b, a, a); }
  }

  /** The integer root of n Y^2 lies between r Y and (r + 1) Y when r is the integer root of n. */
  lemma RootBetween(n: int, r: int, Y: int, s: int, N: int)
    requires Y > 0 && r >= 0 && s >= 0 && N == n * (Y * Y)
    requires r * r <= n < (r + 1) * (r + 1) && s * s <= N < (s + 1) * (s + 1)
    ensures r * Y <= s < (r + 1) * Y
    ensures r * r == n ==> s == r * Y && s * s == N
    ensures r * r < n && s * s == N ==> r * Y < s
  {
    ProductOf(r, Y, r, Y); ProductOf(r + 1, Y, r + 1, Y);
    RootSpans(r * r, n, (r + 1) * (r + 1), Y * Y, N);
    MulMono(0, r, Y);
    SquareOrder(r * Y, s + 1); SquareOrder(s, (r + 1) * Y);
    SquareOrder(r * Y, s);
  }

  lemma RootSpans(a: int, n: int, b: int, Q: int, N: int)
    requires Q > 0 && a <= n < b && N == n * Q
    ensures a * Q <= N < b * Q
    ensures a * Q == N <==> a == n
  {
    MulMono(a, n, Q); MulStrict(n, b, Q);
    if a < n { MulStrict(a, n, Q); }
  }

  /** What integers tell of the real root v of n: its integer part, or v itself where n is a square. */
  ghost predicate RootAt(n: nat, v: real) {
    var s := Isqrt(n);
    if s * s == n then v == s as real else s as real < v < (s + 1) as real
  }

  lemma RootSpan(n: int, r: nat, X: int, N: nat, v: real)
    requires X > 0 && r * r <= n < (r + 1) * (r + 1) && N == n * ((2 * X) * (2 * X)) && RootAt(N, v)
    ensures r * r == n ==> v == ((2 * r) * X) as real
    ensures r * r < n ==> ((2 * r) * X) as real < v < ((2 * r + 2) * X) as real
  {
    hide Isqrt;
    RootBetween(n, r, 2 * X, Isqrt(N), N);
    DoubleRoot(r, X); DoubleRoot(r + 1, X);
  }

  /** Twice the integer square root with a sticky bit stands for the exact root. */
  lemma RootStands(n: nat, r: nat, x: nat, N: nat, v: real)
    requires r * r <= n < (r + 1) * (r + 1)
    requires N == n * (Pow2(x + 1) * Pow2(x + 1)) && RootAt(N, v)
    ensures Stands(2 * r + B2N(r * r != n), x, v)
  {
    hide Pow2, Isqrt, Stands, RootAt;
    Pow2Succ(x);
    RootSpan(n, r, Pow2(x), N, v);
    if r * r == n { StandsExact(2 * r, x, v); } else { StandsBetween(2 * r + 1, x, v); }
  }

  lemma DoubleRoot(r: int, X: int)
    ensures r * (2 * X) == (2 * r) * X
  {}

  lemma RealMul(a: real, b: real, c: real)
    requires a <= b && c >= 0.0
    ensures a * c <= b * c && c * a <= c * b
  {}

  lemma RealMulStrict(a: real, b: real, c: real)
    requires a < b && c > 0.0
    ensures a * c < b * c && c * a < c * b
  {}

  /** Squares order non-negative reals. */
  lemma SquareLess(a: real, b: real)
    requires a >= 0.0 && b >= 0.0 && a * a < b * b
    ensures a < b
  {
    if a >= b { RealMul(b, a, a); RealMul(b, a, b); }
  }

  lemma SquareLeq(a: real, b: real)
    requires a >= 0.0 && b >= 0.0 && a * a <= b * b
    ensures a <= b
  {
    if b < a { SquareStrict(b, a); }
  }

  lemma SquareStrict(a: real, b: real)
    requires 0.0 <= a < b
    ensures a * a < b * b
  {
    calc {
      a * a;
    <= { RealMul(a, b, a); }
      b * a;
    ==
      a * b;
    <  { RealMulStrict(a, b, b); }
      b * b;
    }
  }

  lemma SqrtEvenRounds(m: nat, x: nat, N: nat, v: real)
    requires m > 0 && x % 2 == 0 && 1924 <= x <= 3972
    requires N == (m * Pow2(x)) * Pow2(Z) && RootAt(N, v)
    ensures RoundsTo(false, v, SqrtEven(m, x))
  {
    hide Pow2, RoundsTo, Round, Stands, Unit, Isqrt, RootAt;
    var n := m * Pow2(2 * KR);
    var r := Isqrt(n);
    var X := x / 2 + 1399;
    RootScale(m, x, X);
    RootStands(n, r, X, N, v);
    RootWide(n, r, m);
    var M := 2 * r + B2N(r * r != n);
    UnitWide(M, X);
    RoundCorrect(false, M, X, v);
  }

  /** The root's scale: half the exponents, less the guard bits. */
  lemma RootScale(m: nat, x: nat, X: nat)
    requires x + Z == 2 * KR + 2 * (X + 1)
    ensures (m * Pow2(x)) * Pow2(Z) == (m * Pow2(2 * KR)) * (Pow2(X + 1) * Pow2(X + 1))
  {
    hide Pow2;
    Pow2Add(x, Z); Pow2Add(2 * KR, 2 * (X + 1)); Pow2Add(X + 1, X + 1);
    MulAssoc(m, Pow2(2 * KR), Pow2(X + 1) * Pow2(X + 1)); MulAssoc(m, Pow2(x), Pow2(Z));
  }

  lemma RootWide(n: nat, r: nat, m: nat)
    requires m > 0 && n == m * Pow2(2 * KR) && n < (r + 1) * (r + 1)
    ensures 2 * r >= Pow2(54)
  {
    hide Pow2;
    Pow2Values(); Pow2Succ(53); Pow2Add(53, 53); Pow2Strict(106, 200);
    MulMono(1, m, Pow2(2 * KR));
    if r < TWO_53 { MulMono(r + 1, TWO_53, r + 1); MulMono(r + 1, TWO_53, TWO_53); }
  }

  /** The square root of every double rounds the exact root: where 2^Z Mag(x) is the square of an
      integer, that integer; otherwise every real between two consecutive integers, one of which is
      the root. */
  lemma SqrtRounds(x: nat)
    requires Finite(x) && !Sign(x)
    ensures var n := Times(Mag(x), Pow2(Z));
            var s := Isqrt(n);
            if s * s == n then RoundsTo(false, s as real, Sqrt(x))
            else forall v :: s as real < v < (s + 1) as real ==> RoundsTo(false, v, Sqrt(x))
  {
    hide Pow2, RoundsTo, Sqrt, Isqrt, Mag;
    forall v | RootAt(Times(Mag(x), Pow2(Z)), v) ensures RoundsTo(false, v, Sqrt(x)) { SqrtRoundsAt(x, v); }
  }

  lemma SqrtRoundsAt(x: nat, v: real)
    requires Finite(x) && !Sign(x) && RootAt(Times(Mag(x), Pow2(Z)), v)
    ensures RoundsTo(false, v, Sqrt(x))
  {
    hide Pow2, RoundsTo, Sign, Efield, Frac, SqrtEven, Mant, Xexp, RootAt;
    XexpRange(x);
    if IsZero(x) {
      SqrtZero(x, v);
    } else {
      MantPositive(x);
      var m, e, N := Mant(x), Xexp(x), Times(Mag(x), Pow2(Z));
      if e % 2 == 0 {
        SqrtEvenRounds(m, e, N, v);
      } else {
        Pow2Succ(e - 1);
        assert m * Pow2(e) == (2 * m) * Pow2(e - 1);
        SqrtEvenRounds(2 * m, e - 1, N, v);
      }
    }
  }

  /** So whatever real v squares to 2^Z Mag(x), its rounding is the result. */
  lemma SqrtCorrect(x: nat, v: real)
    requires Finite(x) && !Sign(x)
    requires v >= 0.0 && v * v == (Mag(x) * Pow2(Z)) as real
    ensures RoundsTo(false, v, Sqrt(x))
  {
    hide Pow2, RoundsTo, Sqrt, Mag, RootAt;
    RootIsAt(Times(Mag(x), Pow2(Z)), v);
    SqrtRoundsAt(x, v);
  }

  lemma RootIsAt(n: nat, v: real)
    requires v >= 0.0 && v * v == n as real
    ensures RootAt(n, v)
  {
    hide Isqrt;
    var s := Isqrt(n);
    RealProduct(s, s); RealProduct(s + 1, s + 1);
    SquareLeq(s as real, v);
    SquareLess(v, (s + 1) as real);
    if s * s == n { SquareLeq(v, s as real); } else { SquareLess(s as real, v); }
  }

  lemma ZeroProduct(a: int, b: int)
    requires a == 0
    ensures a * b == 0
  {}

  lemma SqrtZero(x: nat, v: real)
    requires Finite(x) && !Sign(x) && IsZero(x) && RootAt(Times(Mag(x), Pow2(Z)), v)
    ensures RoundsTo(false, v, x)
  {
    hide Pow2, RoundsTo;
    Fields(x);
    assert x == Zero(false);
    assert Mag(x) == 0;
    ZeroProduct(Mag(x), Pow2(Z));
    ZeroProduct(0, Pow2(0));
    RoundZero(false, 0, v);
  }

  /** Negation keeps the magnitude and flips the sign, so subtraction rounds the exact difference. */
  lemma SubCorrect(x: nat, y: nat)
    requires Finite(x) && Finite(y)
    ensures var v := Val(x) - Val(y);
            var s := if v == 0 then Sign(x) && !Sign(y) else v < 0;
            RoundsTo(s, Magnitude(v) as real, Sub(x, y))
  {
    hide Pow2, RoundsTo, Neg, Add, Mag, Sign, Finite;
    NegFields(y);
    AddCorrect(x, Neg(y));
  }

  lemma NegFields(y: nat)
    requires Finite(y)
    ensures Finite(Neg(y)) && Sign(Neg(y)) == !Sign(y) && Mag(Neg(y)) == Mag(y)
  {
    hide Pow2, Encode, Efield, Frac, Sign;
    Fields(y);
    EncodeFields(!Sign(y), Efield(y), Frac(y));
  }

  /** The place of a double on the extended real line. */
  function Place(d: nat): int {
    if !IsInf(d) then Val(d) else if Sign(d) then 0 - Threshold() else Threshold()
  }

  /** The comparison orders all doubles but the NaNs as the extended reals they stand for. */
  lemma OrdCorrect(x: nat, y: nat)
    requires x < TWO_64 && y < TWO_64 && !IsNan(x) && !IsNan(y)
    ensures Ord(x, y) < 0 <==> Place(x) < Place(y)
    ensures Ord(x, y) == 0 <==> Place(x) == Place(y)
    ensures -1 <= Ord(x, y) <= 1
  {
    hide Pow2, Threshold, Mag, Xexp, Align, Efield, Frac, Sign;
    MagZero(x); MagZero(y);
    ThresholdPositive();
    if Efield(x) != 2047 { MagBelowThreshold(x); }
    if Efield(y) != 2047 { MagBelowThreshold(y); }
    var c := Least(Xexp(x), Xexp(y));
    AlignMag(x, c); AlignMag(y, c);
    AlignOrder(Align(x, c), Align(y, c), Pow2(c));
  }

  lemma AlignOrder(a: nat, b: nat, C: nat)
    requires C > 0
    ensures a < b <==> a * C < b * C
    ensures a == b <==> a * C == b * C
  {
    if a < b { MulStrict(a, b, C); }
    if b < a { MulStrict(b, a, C); }
  }

  lemma ThresholdPositive()
    ensures Threshold() > 0
  {
    hide Pow2;
  }

  lemma MagZero(d: nat)
    requires d < TWO_64
    ensures Efield(d) != 2047 ==> (Mag(d) == 0 <==> IsZero(d))
  {
    hide Pow2;
    Fields(d);
    if Mant(d) > 0 { MulStrict(0, Mant(d), Pow2(Xexp(d))); }
  }

  // ---- one is one ----

  lemma ExactRounds(d: nat)
    requires Finite(d)
    ensures RoundsTo(Sign(d), Mag(d) as real, d)
  {
    hide Mag, Sign, Frac, Efield, Threshold;
    MagBelowThreshold(d);
  }

  /** The pattern 0x3FF0000000000000 is the unit of multiplication and division and its own root. */
  lemma UnitOfProducts(x: nat)
    requires Finite(x)
    ensures Mul(x, 0x3FF0_0000_0000_0000) == x && Div(x, 0x3FF0_0000_0000_0000) == x
    ensures Sqrt(0x3FF0_0000_0000_0000) == 0x3FF0_0000_0000_0000
  {
    hide Pow2, Mag, Mul, Div, Sqrt, RoundsTo, Finite, Sign, IsZero;
    var one, z, v := 0x3FF0_0000_0000_0000, Pow2(Z), Mag(x) as real;
    OnePattern();
    OneIsOne();
    ExactRounds(x); ExactRounds(one);
    RealProduct(Mag(x), z); RealProduct(z, z);
    MulCorrect(x, one, v);
    RoundsToUnique(Sign(x), v, Mul(x, one), x);
    DivCorrect(x, one, v);
    RoundsToUnique(Sign(x), v, Div(x, one), x);
    SqrtCorrect(one, z as real);
    RoundsToUnique(false, z as real, Sqrt(one), one);
  }

  lemma OnePattern()
    ensures Finite(0x3FF0_0000_0000_0000) && !Sign(0x3FF0_0000_0000_0000) && !IsZero(0x3FF0_0000_0000_0000)
  {}

  // ---- infinities, zeros and NaNs ----

  lemma Constants(s: bool)
    ensures IsNan(QNAN) && QNAN < TWO_64
    ensures Inf(s) < TWO_64 && IsInf(Inf(s)) && Sign(Inf(s)) == s
    ensures Zero(s) < TWO_64 && IsZero(Zero(s)) && Sign(Zero(s)) == s
  {}

  /** Rounding never makes a NaN. */
  lemma RoundIsNumber(s: bool, m: nat, x: nat)
    ensures !IsNan(Round(s, m, x))
  {
    hide Pow2, Round, Sign, Mag, Frac, Efield, Threshold, Nearest;
    RoundSum(s, m, x);
    Constants(s);
  }

  lemma AddFinIsNumber(x: nat, y: nat)
    ensures !IsNan(AddFin(x, y))
  {
    hide Round, IsNan, Align, Sign, Xexp;
    var c := Least(Xexp(x), Xexp(y));
    var a, b := Align(x, c), Align(y, c);
    if Sign(x) == Sign(y) { RoundIsNumber(Sign(x), a + b, c); }
    if a > b { RoundIsNumber(Sign(x), a - b, c); }
    if a < b { RoundIsNumber(Sign(y), b - a, c); }
    ZeroIsNumber(false);
  }

  lemma ZeroIsNumber(s: bool)
    ensures !IsNan(Zero(s))
  {}

  /** IEEE 754-2019, sections 6.1 and 7.2: exactly which sums are not numbers, all of them the one
      quiet pattern, and the sums with an infinite operand. */
  lemma AddSpecial(x: nat, y: nat)
    requires x < TWO_64 && y < TWO_64
    ensures IsNan(Add(x, y)) <==> IsNan(x) || IsNan(y) || (IsInf(x) && IsInf(y) && Sign(x) != Sign(y))
    ensures IsNan(Add(x, y)) ==> Add(x, y) == QNAN
    ensures !IsNan(Add(x, y)) && (IsInf(x) || IsInf(y)) ==>
              IsInf(Add(x, y)) && Sign(Add(x, y)) == (if IsInf(x) then Sign(x) else Sign(y))
  {
    hide Efield, Frac, Sign, AddFin;
    Constants(false);
    AddFinIsNumber(x, y);
  }

  /** Negation flips the sign bit of every pattern, NaNs included. */
  lemma NegBits(y: nat)
    requires y < TWO_64
    ensures Neg(y) == if y < 0x8000_0000_0000_0000 then y + 0x8000_0000_0000_0000 else y - 0x8000_0000_0000_0000
  {
    hide Encode, Efield, Frac, Sign;
    Fields(y);
    EncodeBits(Sign(y), Efield(y), Frac(y)); EncodeBits(!Sign(y), Efield(y), Frac(y));
  }

  /** Exactly which differences are not numbers, and the differences with an infinite operand. */
  lemma SubSpecial(x: nat, y: nat)
    requires x < TWO_64 && y < TWO_64
    ensures IsNan(Sub(x, y)) <==> IsNan(x) || IsNan(y) || (IsInf(x) && IsInf(y) && Sign(x) == Sign(y))
    ensures IsNan(Sub(x, y)) ==> Sub(x, y) == QNAN
    ensures !IsNan(Sub(x, y)) && (IsInf(x) || IsInf(y)) ==>
              IsInf(Sub(x, y)) && Sign(Sub(x, y)) == (if IsInf(x) then Sign(x) else !Sign(y))
  {
    hide Encode, Efield, Frac, Sign, Add;
    Fields(y);
    EncodeFields(!Sign(y), Efield(y), Frac(y));
    AddSpecial(x, Neg(y));
  }

  /** Infinity times zero is not a number; any other product with an infinity is infinite. */
  lemma MulSpecial(x: nat, y: nat)
    requires x < TWO_64 && y < TWO_64
    ensures IsNan(Mul(x, y)) <==>
            IsNan(x) || IsNan(y) || (IsInf(x) && IsZero(y)) || (IsZero(x) && IsInf(y))
    ensures IsNan(Mul(x, y)) ==> Mul(x, y) == QNAN
    ensures !IsNan(Mul(x, y)) && (IsInf(x) || IsInf(y)) ==>
              IsInf(Mul(x, y)) && Sign(Mul(x, y)) == (Sign(x) != Sign(y))
  {
    hide Efield, Frac, Sign, Round, Mant, Xexp;
    Constants(Sign(x) != Sign(y));
    XexpRange(x); XexpRange(y);
    RoundIsNumber(Sign(x) != Sign(y), Mant(x) * Mant(y), Nsub(Xexp(x) + Xexp(y), Z));
  }

  /** Infinity over infinity and zero over zero are not numbers; the quotients with an infinite
      operand or a zero divisor are infinite or, by infinity, zero. */
  lemma DivSpecial(x: nat, y: nat)
    requires x < TWO_64 && y < TWO_64
    ensures var d := Div(x, y);
            && (IsNan(d) <==> IsNan(x) || IsNan(y) || (IsInf(x) && IsInf(y)) || (IsZero(x) && IsZero(y)))
            && (IsNan(d) ==> d == QNAN)
            && (!IsNan(d) && (!Finite(x) || !Finite(y) || IsZero(y)) ==>
                  Sign(d) == (Sign(x) != Sign(y)) && if IsInf(y) then IsZero(d) else IsInf(d))
  {
    hide Efield, Frac, Sign, DivFin;
    var s := Sign(x) != Sign(y);
    Constants(s);
    ZeroIsNumber(s);
    if Finite(x) && Finite(y) && !IsZero(y) { DivFinIsNumber(x, y, s); }
  }

  lemma DivFinIsNumber(x: nat, y: nat, s: bool)
    requires Mant(y) != 0
    ensures !IsNan(DivFin(x, y, s))
  {
    hide Pow2, Round, IsNan, Mant, Xexp;
    var n := Mant(x) * Pow2(KQ);
    RoundIsNumber(s, 2 * (n / Mant(y)) + Least(n % Mant(y), 1), Nsub(Xexp(x) + Z, Xexp(y) + KQ + 1));
  }

  /** The square root of a negative number is not a number; of a zero it is that zero. */
  lemma SqrtSpecial(x: nat)
    requires x < TWO_64
    ensures IsNan(Sqrt(x)) <==> IsNan(x) || (Sign(x) && !IsZero(x))
    ensures IsNan(Sqrt(x)) ==> Sqrt(x) == QNAN
    ensures !IsNan(Sqrt(x)) && (IsInf(x) || IsZero(x)) ==> Sqrt(x) == x
  {
    hide Efield, Frac, Sign, SqrtFin;
    Constants(false);
    SqrtFinIsNumber(x);
  }

  lemma SqrtFinIsNumber(x: nat)
    ensures !IsNan(SqrtFin(x))
  {
    hide Pow2, Round, IsNan, Mant, Xexp, Isqrt;
    XexpRange(x);
    forall m: nat, e: nat ensures !IsNan(SqrtEven(m, e)) {
      var n := m * Pow2(2 * KR);
      RoundIsNumber(false, 2 * Isqrt(n) + B2N(Isqrt(n) * Isqrt(n) != n), Nsub(e / 2 + Z / 2, KR + 1));
    }
  }

  lemma InfUnique(x: nat)
    requires x < TWO_64 && IsInf(x)
    ensures x == Inf(Sign(x))
  {
    FieldValue(x);
  }

  /** Addition commutes, bit for bit. */
  lemma AddCommutes(x: nat, y: nat)
    requires x < TWO_64 && y < TWO_64
    ensures Add(x, y) == Add(y, x)
  {
    hide Efield, Frac, Sign, AddFin, RoundsTo, Mag, Inf;
    if Finite(x) && Finite(y) {
      AddCorrect(x, y); AddCorrect(y, x);
      var v := Val(x) + Val(y);
      RoundsToUnique(if v == 0 then Sign(x) && Sign(y) else v < 0, Magnitude(v) as real, Add(x, y), Add(y, x));
    } else {
      if IsInf(x) { InfUnique(x); }
      if IsInf(y) { InfUnique(y); }
    }
  }
}
