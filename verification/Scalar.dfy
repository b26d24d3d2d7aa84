/** The Horner step modulo the Ed25519 group order (tools/gen_scalar.py:24-42; the order is that of
    RFC 8032, section 5.1): one 17-bit digit into a scalar below L, with a quotient estimate from the
    two top limbs and one masked subtraction. */
module Scalar {
  import opened Arith
  import opened Sequences
  import opened Terms
  import opened FieldCode
  import F = Limbs

  const DELTA: nat := 27742317777372353535851937790883648493

  /** L = 2^252 + DELTA. */
  function Order(): nat { Pow2(252) + DELTA }

  // ---- the generator ----

  function Scal(a: Term, ys: seq<Term>): (r: seq<Term>)
    ensures |r| == |ys|
  {
    seq(|ys|, i requires 0 <= i < |ys| => Bin(NatMul, a, ys[i]))
  }

  /** gen_scalar.py:24-29: subtraction with a borrow chain, and the borrow out. */
  function Subb(R: Term, xs: seq<Term>, ys: seq<Term>, b: Term): (r: (seq<Term>, Term))
    ensures |xs| == |ys| ==> |r.0| == |xs|
    decreases |xs|
  {
    if xs == [] || ys == [] then ([], b)
    else
      var d := Bin(NatSub, Bin(NatAdd, xs[0], R), Bin(NatAdd, ys[0], b));
      var (rest, out) := Subb(R, xs[1..], ys[1..], Bin(NatSub, Lit(1), Bin(NatDiv, d, R)));
      ([Bin(NatMod, d, R)] + rest, out)
  }

  /** gen_scalar.py:32-33. */
  function Sel(s: Term, xs: seq<Term>, ys: seq<Term>): (r: seq<Term>)
    requires |xs| == |ys|
    ensures |r| == |xs|
  {
    seq(|xs|, i requires 0 <= i < |xs| =>
      Bin(NatAdd, Bin(NatMul, xs[i], Bin(NatSub, Lit(1), s)), Bin(NatMul, ys[i], s)))
  }

  /** gen_scalar.py:37-38. */
  function Estimate(R: Term, acc: seq<Term>): Term
    requires |acc| == F.N
  {
    var x := Bin(NatAdd, acc[13], Bin(NatMul, acc[14], R));
    Bin(NatSub, Bin(NatDiv, x, Bin(NatDiv, R, Lit(8))), Lit(1))
  }

  /** gen_scalar.py:36-42. */
  function Step(R: Term, l: seq<Term>, acc: seq<Term>, d: Term): (r: seq<Term>)
    requires |l| == |acc| == F.N
    ensures |r| == F.N
  {
    var (ml, mo) := Carry(R, Scal(Estimate(R, acc), l), Lit(0));
    var u := Subb(R, [d] + acc, ml + [mo], Lit(0)).0;
    var (w, wo) := Subb(R, u, l + [Lit(0)], Lit(0));
    Sel(wo, w, u)[..F.N]
  }

  // ---- the same on limbs ----

  function SubbN(xs: seq<nat>, ys: seq<nat>, b: nat): (seq<nat>, nat)
    requires |xs| == |ys| && Below(xs, F.R) && Below(ys, F.R) && b <= 1
    decreases |xs|
  {
    if xs == [] then ([], b)
    else
      var d := xs[0] + F.R - (ys[0] + b);
      var (rest, out) := SubbN(xs[1..], ys[1..], 1 - d / F.R);
      ([d % F.R] + rest, out)
  }

  /** The chain computes the difference; the borrow out says that it would be negative. */
  lemma {:induction false} SubbValue(xs: seq<nat>, ys: seq<nat>, b: nat)
    requires |xs| == |ys| && Below(xs, F.R) && Below(ys, F.R) && b <= 1
    ensures var (rs, o) := SubbN(xs, ys, b);
            && |rs| == |xs| && Below(rs, F.R) && o <= 1
            && F.Lv(rs) + F.Lv(ys) + b == F.Lv(xs) + F.Rp(|xs|) * o
    decreases |xs|
  {
    hide Below, F.Lv;
    if xs != [] {
      F.BelowAt(xs, 0, F.R); F.BelowAt(ys, 0, F.R);
      F.BelowTail(xs, F.R); F.BelowTail(ys, F.R);
      var d := xs[0] + F.R - (ys[0] + b);
      var (rest, o) := SubbN(xs[1..], ys[1..], 1 - d / F.R);
      SubbValue(xs[1..], ys[1..], 1 - d / F.R);
      F.LvCons(d % F.R, rest);
      F.LvCons(xs[0], xs[1..]); F.LvCons(ys[0], ys[1..]);
      assert xs == [xs[0]] + xs[1..] && ys == [ys[0]] + ys[1..];
      MulAssoc(F.R, F.Rp(|xs| - 1), o);
      F.HeadBelow(d % F.R, rest, F.R);
    } else {
      F.NoLimb();
    }
  }

  /** The borrow tells the order of the operands. */
  lemma SubbOrder(xs: seq<nat>, ys: seq<nat>)
    requires |xs| == |ys| && Below(xs, F.R) && Below(ys, F.R)
    ensures var (rs, o) := SubbN(xs, ys, 0);
            && |rs| == |xs| && Below(rs, F.R)
            && (F.Lv(ys) <= F.Lv(xs) ==> o == 0 && F.Lv(rs) == F.Lv(xs) - F.Lv(ys))
            && (F.Lv(xs) < F.Lv(ys) ==> o == 1)
  {
    hide F.Rp, F.Lv, SubbN, Below;
    SubbValue(xs, ys, 0);
    var (rs, o) := SubbN(xs, ys, 0);
    LvBelow(rs); LvBelow(xs);
    ByBit(F.Rp(|xs|), o);
  }

  lemma ByBit(a: int, o: nat)
    requires o <= 1
    ensures a * o == if o == 1 then a else 0
  {}

  lemma {:induction false} LvBelow(xs: seq<nat>)
    requires Below(xs, F.R)
    ensures F.Lv(xs) < F.Rp(|xs|)
    decreases |xs|
  {
    if xs != [] { LvBelow(xs[1..]); }
  }

  // ---- the terms denote it ----

  lemma ScalDenotes(a: Term, ys: seq<Term>, env: Env, x: nat, b: seq<nat>, p: nat)
    requires Denotes(a, env, x) && Denote(ys, env, b) && Below(b, F.R) && x < p && p * F.R <= LIMIT
    ensures Denote(Scal(a, ys), env, F.ScaleN(b, x))
  {
    hide Denotes;
    forall i | 0 <= i < |ys| ensures Denotes(Bin(NatMul, a, ys[i]), env, b[i] * x) {
      MulBound(x, b[i], p, F.R);
      Denotes2(NatMul, a, ys[i], env, x, b[i]);
    }
  }

  lemma {:induction false} SubbDenotes(R: Term, xs: seq<Term>, ys: seq<Term>, b: Term, env: Env, a: seq<nat>,
                                       c: seq<nat>, bv: nat)
    requires Denotes(R, env, F.R) && Denote(xs, env, a) && Denote(ys, env, c) && Denotes(b, env, bv)
    requires |a| == |c| && Below(a, F.R) && Below(c, F.R) && bv <= 1
    ensures Denote(Subb(R, xs, ys, b).0, env, SubbN(a, c, bv).0)
    ensures Denotes(Subb(R, xs, ys, b).1, env, SubbN(a, c, bv).1)
    decreases |xs|
  {
    hide Denotes, Below;
    if xs != [] {
      F.BelowAt(a, 0, F.R); F.BelowAt(c, 0, F.R);
      F.BelowTail(a, F.R); F.BelowTail(c, F.R);
      Tail(xs, env, a); Tail(ys, env, c);
      Denotes2(NatAdd, xs[0], R, env, a[0], F.R);
      Denotes2(NatAdd, ys[0], b, env, c[0], bv);
      var d, dv := Bin(NatSub, Bin(NatAdd, xs[0], R), Bin(NatAdd, ys[0], b)), a[0] + F.R - (c[0] + bv);
      Denotes2(NatSub, Bin(NatAdd, xs[0], R), Bin(NatAdd, ys[0], b), env, a[0] + F.R, c[0] + bv);
      SplitLimb(R, d, env, dv);
      LitDenotes(1, env);
      var nb := Bin(NatSub, Lit(1), Bin(NatDiv, d, R));
      Denotes2(NatSub, Lit(1), Bin(NatDiv, d, R), env, 1, dv / F.R);
      SubbDenotes(R, xs[1..], ys[1..], nb, env, a[1..], c[1..], 1 - dv / F.R);
      Cons(Bin(NatMod, d, R), Subb(R, xs[1..], ys[1..], nb).0, env, dv % F.R, SubbN(a[1..], c[1..], 1 - dv / F.R).0);
    }
  }

  lemma SelDenotes(s: Term, xs: seq<Term>, ys: seq<Term>, env: Env, sv: nat, a: seq<nat>, b: seq<nat>)
    requires |xs| == |ys| && Denotes(s, env, sv) && sv <= 1 && Denote(xs, env, a) && Denote(ys, env, b)
    requires Below(a, F.R) && Below(b, F.R)
    ensures Denote(Sel(s, xs, ys), env, if sv == 1 then b else a)
  {
    hide Denotes;
    LitDenotes(1, env);
    Denotes2(NatSub, Lit(1), s, env, 1, sv);
    var n := Bin(NatSub, Lit(1), s);
    forall i | 0 <= i < |xs|
      ensures Denotes(Bin(NatAdd, Bin(NatMul, xs[i], n), Bin(NatMul, ys[i], s)), env, if sv == 1 then b[i] else a[i])
    {
      assert a[i] * (1 - sv) == (if sv == 1 then 0 else a[i]) && b[i] * sv == (if sv == 1 then b[i] else 0);
      Denotes2(NatMul, xs[i], n, env, a[i], 1 - sv);
      Denotes2(NatMul, ys[i], s, env, b[i], sv);
      Denotes2(NatAdd, Bin(NatMul, xs[i], n), Bin(NatMul, ys[i], s), env, a[i] * (1 - sv), b[i] * sv);
    }
  }

  // ---- the quotient estimate ----

  lemma OrderBounds()
    ensures F.Rp(15) == 8 * Pow2(252) && Pow2(252) == Pow2(235) * F.R && DELTA * 0x4_0000 < Pow2(252)
    ensures Pow2(235) == F.Rp(13) * 0x4000 && 0 < Order() < 2 * Pow2(252) && Pow2(252) <= Order()
  {
    hide Pow2, F.Rp;
    F.RpPow(15); F.RpPow(13);
    Pow2Values(); Eight();
    Pow2Add(252, 3); Pow2Add(235, 17); Pow2Add(221, 14);
    DeltaBound();
  }

  lemma Eight()
    ensures Pow2(3) == 8
  {}

  lemma DeltaBound()
    ensures DELTA * 0x4_0000 < Pow2(252)
  {
    hide Pow2;
    Pow2Values();
    Pow2Add(64, 64); Pow2Add(128, 17); Pow2Mono(145, 252);
  }

  lemma TopBits(a: nat)
    requires a < Order()
    ensures var e, q := a / Pow2(235), Pow2(235); 0 <= a - e * q < q && 0 <= e < 0x4_0000
  {
    hide Pow2, Order;
    OrderBounds();
    DivMod(a, Pow2(235));
    DivBelow(a, 0x4_0000, Pow2(235));
  }

  /** d + 2^17 a less (floor(a / 2^235) - 1) L lies in [0, 2 L). */
  lemma EstimateBounds(a: nat, d: nat, e: nat)
    requires a < Order() && d < F.R && e == a / Pow2(235)
    ensures var m := if e == 0 then 0 else e - 1;
            && 0 <= d + F.R * a - m * Order() < 2 * Order()
            && e < 0x4_0000
  {
    hide Pow2, Order, F.Rp;
    OrderBounds();
    OrderIs();
    TopBits(a);
    EstimateInt(a, d, e, Pow2(235), Pow2(252), DELTA, Order());
  }

  lemma OrderIs()
    ensures Order() == Pow2(252) + DELTA
  {
    hide Pow2;
  }

  lemma EstimateInt(a: int, d: int, e: int, q: int, big: int, delta: int, order: int)
    requires 0 <= a - e * q < q && 0 <= d < F.R && big == q * F.R && order == big + delta
    requires 0 <= e < 0x4_0000 && 0 <= delta && delta * 0x4_0000 < big
    ensures var m := if e == 0 then 0 else e - 1;
            0 <= d + F.R * a - m * order < 2 * order
  {
    ShiftEstimate(a, d, e, q, big);
    if e > 0 { Multiple(e, big, delta); }
  }

  lemma Multiple(e: int, big: int, delta: int)
    requires 0 < e < 0x4_0000 && 0 <= delta
    ensures e * big - big <= (e - 1) * (big + delta) <= e * big - big + delta * 0x4_0000
  {
    assert (e - 1) * (big + delta) == e * big - big + (e - 1) * delta;
    MulMono(e - 1, 0x4_0000, delta); MulMono(0, e - 1, delta);
  }

  lemma ShiftEstimate(a: int, d: int, e: int, q: int, big: int)
    requires 0 <= a - e * q < q && 0 <= d < F.R && big == q * F.R
    ensures e * big <= d + F.R * a < e * big + big
  {
    MulAssoc(e, q, F.R);
  }

  // ---- the step ----

  function EstimateN(a: seq<nat>): nat
    requires |a| == F.N
  {
    var e := (a[13] + a[14] * F.R) / 0x4000;
    if e == 0 then 0 else e - 1
  }

  /** The two top limbs give floor(a / 2^235). */
  lemma TopLimbs(a: seq<nat>)
    requires |a| == F.N && Below(a, F.R)
    ensures (a[13] + a[14] * F.R) / 0x4000 == F.Lv(a) / Pow2(235)
  {
    hide Pow2, F.Rp;
    var lo, hi := a[..13], a[13..];
    assert a == lo + hi;
    F.LvAppend(lo, hi);
    TwoLimbValue(hi);
    LvBelow(lo);
    var x := a[13] + a[14] * F.R;
    DivModUnique(F.Lv(a), F.Rp(13), x, F.Lv(lo));
    OrderBounds();
    DivDiv(F.Lv(a), F.Rp(13), 0x4000);
  }

  lemma TwoLimbValue(xs: seq<nat>)
    requires |xs| == 2
    ensures F.Lv(xs) == xs[0] + xs[1] * F.R
  {
    OneLimb(xs[1]);
    assert xs == [xs[0]] + [xs[1]];
    F.LvCons(xs[0], [xs[1]]);
  }

  lemma EstimateDenotes(R: Term, acc: seq<Term>, env: Env, a: seq<nat>)
    requires Denotes(R, env, F.R) && Denote(acc, env, a) && |acc| == F.N && Below(a, F.R)
    ensures Denotes(Estimate(R, acc), env, EstimateN(a))
  {
    hide Denotes;
    MulBound(a[14], F.R, F.R, F.R + 1);
    LitDenotes(8, env); LitDenotes(1, env);
    Denotes2(NatMul, acc[14], R, env, a[14], F.R);
    Denotes2(NatAdd, acc[13], Bin(NatMul, acc[14], R), env, a[13], a[14] * F.R);
    var x, v := Bin(NatAdd, acc[13], Bin(NatMul, acc[14], R)), a[13] + a[14] * F.R;
    Denotes2(NatDiv, R, Lit(8), env, F.R, 8);
    Denotes2(NatDiv, x, Bin(NatDiv, R, Lit(8)), env, v, 0x4000);
    Denotes2(NatSub, Bin(NatDiv, x, Bin(NatDiv, R, Lit(8))), Lit(1), env, v / 0x4000, 1);
  }

  /** m L in 16 limbs. */
  function MultipleN(l: seq<nat>, m: nat): seq<nat> {
    var (ml, mo) := F.CarryN(F.ScaleN(l, m), 0);
    ml + [mo]
  }

  lemma MultipleValue(l: seq<nat>, m: nat)
    requires |l| == F.N && Below(l, F.R) && m < 0x4_0000 && 4 * F.Lv(l) <= F.Rp(15)
    ensures var p := MultipleN(l, m);
            |p| == 16 && Below(p, F.R) && F.Lv(p) == F.Lv(l) * m
  {
    hide F.Rp, F.CarryN, Below, F.Lv, F.ScaleN;
    F.ScaleBelow(l, m, F.R, 0x4_0000);
    F.ScaleValue(l, m);
    F.CarryValue(F.ScaleN(l, m), 0, F.R * 0x4_0000, 0x8_0000);
    var (ml, mo) := F.CarryN(F.ScaleN(l, m), 0);
    F.LvAppend(ml, [mo]);
    OneLimb(mo);
    LvPositive(ml);
    TopCarry(F.Lv(ml), F.Rp(15), mo, F.Lv(l), m);
    LastBelow(ml, mo);
  }

  lemma LvPositive(xs: seq<nat>)
    ensures F.Lv(xs) >= 0
  {}

  lemma LastBelow(xs: seq<nat>, x: nat)
    requires Below(xs, F.R) && x < F.R
    ensures Below(xs + [x], F.R)
  {}

  lemma OneLimb(x: nat)
    ensures F.Lv([x]) == x
  {
    assert [x][1..] == [];
  }

  lemma TopCarry(low: int, p: int, mo: int, l: int, m: int)
    requires 0 <= low && 0 <= 4 * l <= p && 0 < p && 0 <= m < 0x4_0000 && low + p * mo == l * m
    ensures mo < F.R
  {
    MulMono(m, 0x4_0000, l);
    if mo >= F.R { MulMono(F.R, mo, p); }
  }

  // ---- the step is exact ----

  function StepN(l: seq<nat>, acc: seq<nat>, d: nat): (r: seq<nat>)
    requires |l| == |acc| == F.N && Below(l, F.R) && Below(acc, F.R) && d < F.R
    requires F.Lv(l) == Order() && F.Lv(acc) < Order()
  {
    StepReady(l, acc, d);
    var u := SubbN([d] + acc, MultipleN(l, EstimateN(acc)), 0).0;
    var (w, wo) := SubbN(u, l + [0], 0);
    (if wo == 1 then u else w)[..F.N]
  }

  lemma StepReady(l: seq<nat>, acc: seq<nat>, d: nat)
    requires |l| == |acc| == F.N && Below(l, F.R) && Below(acc, F.R) && d < F.R
    requires F.Lv(l) == Order() && F.Lv(acc) < Order()
    ensures var x, y := [d] + acc, MultipleN(l, EstimateN(acc));
            && |x| == |y| == 16 && Below(x, F.R) && Below(y, F.R)
            && 0 <= F.Lv(x) - F.Lv(y) < 2 * Order()
            && F.Lv(x) == d + F.R * F.Lv(acc) && F.Lv(y) == Order() * EstimateN(acc) && EstimateN(acc) < 0x4_0000
            && var u := SubbN(x, y, 0).0;
               && F.Lv(u) == F.Lv(x) - F.Lv(y) && |u| == 16 && Below(u, F.R)
               && Below(l + [0], F.R) && |l + [0]| == 16 && F.Lv(l + [0]) == Order()
               && var (w, wo) := SubbN(u, l + [0], 0); |w| == 16 && Below(w, F.R)
  {
    hide F.Rp, Below, F.Lv, SubbN, Order, MultipleN, Pow2;
    var x, m := [d] + acc, EstimateN(acc);
    OrderBounds(); OrderQuarter();
    TopLimbs(acc);
    EstimateBounds(F.Lv(acc), d, F.Lv(acc) / Pow2(235));
    MultipleValue(l, m);
    F.LvCons(d, acc); F.HeadBelow(d, acc, F.R);
    SubbOrder(x, MultipleN(l, m));
    LastBelow(l, 0); OneLimb(0); F.LvAppend(l, [0]);
    SubbOrder(SubbN(x, MultipleN(l, m), 0).0, l + [0]);
    assert m * Order() == Order() * m;
  }

  lemma OrderQuarter()
    ensures 4 * Order() <= F.Rp(15)
  {
    hide Pow2, F.Rp;
    OrderBounds();
  }

  /** The step returns the digit entered into the scalar, reduced modulo L. */
  lemma StepValue(l: seq<nat>, acc: seq<nat>, d: nat)
    requires |l| == |acc| == F.N && Below(l, F.R) && Below(acc, F.R) && d < F.R
    requires F.Lv(l) == Order() && F.Lv(acc) < Order()
    ensures var r := StepN(l, acc, d);
            && |r| == F.N && Below(r, F.R)
            && F.Lv(r) == (d + F.R * F.Lv(acc)) % Order()
  {
    hide F.Rp, Below, F.Lv, SubbN, Order, MultipleN, EstimateN;
    StepReady(l, acc, d);
    var x, y := [d] + acc, MultipleN(l, EstimateN(acc));
    var u := SubbN(x, y, 0).0;
    var (w, wo) := SubbN(u, l + [0], 0);
    SubbOrder(u, l + [0]);
    var s := if wo == 1 then u else w;
    FifteenLimbs(s);
    var q := EstimateN(acc) + (if wo == 1 then 0 else 1);
    assert Order() * EstimateN(acc) + (if wo == 1 then 0 else Order()) == q * Order();
    DivModUnique(d + F.R * F.Lv(acc), Order(), q, F.Lv(s));
  }

  /** A value below L needs no sixteenth limb. */
  lemma FifteenLimbs(s: seq<nat>)
    requires |s| == 16 && Below(s, F.R) && F.Lv(s) < Order()
    ensures |s[..F.N]| == F.N && Below(s[..F.N], F.R) && F.Lv(s[..F.N]) == F.Lv(s)
  {
    hide F.Rp, Order, F.Lv;
    OrderQuarter();
    assert s == s[..15] + [s[15]];
    F.LvAppend(s[..15], [s[15]]);
    OneLimb(s[15]); LvPositive(s[..15]);
    if s[15] > 0 { MulMono(1, s[15], F.Rp(15)); }
  }

  /** The generated step: exact throughout, and (d + 2^17 a) mod L. */
  lemma StepCorrect(R: Term, lt: seq<Term>, at: seq<Term>, dt: Term, env: Env, l: seq<nat>, acc: seq<nat>, d: nat)
    requires Denotes(R, env, F.R) && Denote(lt, env, l) && Denote(at, env, acc) && Denotes(dt, env, d)
    requires |l| == |acc| == F.N && Below(l, F.R) && Below(acc, F.R) && d < F.R
    requires F.Lv(l) == Order() && F.Lv(acc) < Order()
    ensures var r := StepN(l, acc, d);
            && Denote(Step(R, lt, at, dt), env, r) && |r| == F.N && Below(r, F.R)
            && F.Lv(r) == (d + F.R * F.Lv(acc)) % Order()
  {
    hide F.Rp, Below, F.Lv, Order, Denotes, SubbN, Subb, Sel, F.CarryN, Carry, Estimate, EstimateN;
    StepReady(l, acc, d);
    StepValue(l, acc, d);
    var m, e := EstimateN(acc), Estimate(R, at);
    var y := MultipleN(l, m);
    MultipleDenotes(R, lt, env, l, at, acc);
    var yt := Carry(R, Scal(e, lt), Lit(0)).0 + [Carry(R, Scal(e, lt), Lit(0)).1];
    LitDenotes(0, env);
    Cons(dt, at, env, d, acc);
    SubbDenotes(R, [dt] + at, yt, Lit(0), env, [d] + acc, y, 0);
    var ut, u := Subb(R, [dt] + at, yt, Lit(0)).0, SubbN([d] + acc, y, 0).0;
    SubbDenotes(R, ut, lt + [Lit(0)], Lit(0), env, u, l + [0], 0);
    var (w, wo) := SubbN(u, l + [0], 0);
    var (wt, wot) := Subb(R, ut, lt + [Lit(0)], Lit(0));
    SubbOrder(u, l + [0]);
    SelDenotes(wot, wt, ut, env, wo, w, u);
  }

  lemma MultipleDenotes(R: Term, lt: seq<Term>, env: Env, l: seq<nat>, at: seq<Term>, acc: seq<nat>)
    requires Denotes(R, env, F.R) && Denote(lt, env, l) && Denote(at, env, acc)
    requires |l| == |acc| == F.N && Below(l, F.R) && Below(acc, F.R) && EstimateN(acc) < 0x4_0000
    ensures var (ml, mo) := Carry(R, Scal(Estimate(R, at), lt), Lit(0));
            Denote(ml + [mo], env, MultipleN(l, EstimateN(acc)))
  {
    hide Denotes, Below, F.CarryN, Carry, Estimate, EstimateN;
    var m, e := EstimateN(acc), Estimate(R, at);
    EstimateDenotes(R, at, env, acc);
    ScalDenotes(e, lt, env, m, l, 0x4_0000);
    F.ScaleBelow(l, m, F.R, 0x4_0000);
    LitDenotes(0, env);
    CarryDenotes(R, Scal(e, lt), Lit(0), env, F.ScaleN(l, m), 0, F.R * 0x4_0000, 0x8_0000);
  }

  /** The order of the base point of Curve25519, section 4.1 of RFC 7748. */
  lemma OrderLiteral()
    ensures Order() == 0x10000000_00000000_00000000_00000000_14def9de_a2f79cd6_5812631a_5cf5d3ed
  {
    hide Pow2;
    Pow2Values();
    Pow2Add(64, 64); Pow2Add(128, 64); Pow2Add(192, 52); Pow2Add(244, 8);
  }
}
