/** The straight-line field operations that tools/gen_fe.py writes, as the symbolic terms it builds,
    and the proof that on limbs below 2^19 every subterm stays exact, below 2^48 and within the
    32-bit multiplier, and that the results are those of the reference list algorithms. */
module FieldCode {
  import opened Arith
  import opened Sequences
  import opened Terms
  import L = Limbs

  // ---- the generator ----

  function Bin(h: Head, a: Term, b: Term): Term { Op(h, [a, b]) }

  /** gen_fe.py:38-43. */
  function Addl(xs: seq<Term>, ys: seq<Term>): seq<Term>
    decreases |xs|
  {
    if xs == [] then ys else if ys == [] then xs
    else [Bin(NatAdd, xs[0], ys[0])] + Addl(xs[1..], ys[1..])
  }

  /** gen_fe.py:50-51. */
  function ScalR(ys: seq<Term>, k: Term): (r: seq<Term>)
    ensures |r| == |ys|
  {
    seq(|ys|, i requires 0 <= i < |ys| => Bin(NatMul, ys[i], k))
  }

  /** gen_fe.py:64-68: a limb product on the 32-bit multiplier, the second factor split at bit 9. */
  function Pm(a: Term, b: Term): Term {
    var ua, ub := Op(FromNat, [a]), Op(FromNat, [b]);
    var lo := Op(ToNat, [Bin(U32Mul, ua, Bin(U32And, ub, Lit(511)))]);
    var hi := Op(ToNat, [Bin(U32Mul, ua, Bin(U32Shrn, ub, Lit(9)))]);
    Bin(NatAdd, lo, Bin(NatMul, hi, Lit(512)))
  }

  /** gen_fe.py:71-72. */
  function ScalP(a: Term, ys: seq<Term>): (r: seq<Term>)
    ensures |r| == |ys|
  {
    seq(|ys|, i requires 0 <= i < |ys| => Pm(a, ys[i]))
  }

  /** gen_fe.py:75-78. */
  function ConvP(xs: seq<Term>, ys: seq<Term>): seq<Term>
    decreases |xs|
  {
    if xs == [] || ys == [] then []
    else [Pm(xs[0], ys[0])] + Addl(ScalP(xs[0], ys[1..]), ConvP(xs[1..], ys))
  }

  /** gen_fe.py:81-82. */
  function Dbl(ys: seq<Term>): (r: seq<Term>)
    ensures |r| == |ys|
  {
    seq(|ys|, i requires 0 <= i < |ys| => Bin(NatAdd, ys[i], ys[i]))
  }

  /** gen_fe.py:85-91: the square, each cross product once. */
  function SqP(xs: seq<Term>): seq<Term>
    decreases |xs|
  {
    if xs == [] then [] else if |xs| == 1 then [Pm(xs[0], xs[0])]
    else
      [Pm(xs[0], xs[0]), Pm(xs[0], Bin(NatAdd, xs[1], xs[1]))] +
      Addl(ScalP(xs[0], Dbl(xs[2..])), SqP(xs[1..]))
  }

  /** gen_fe.py:94-95. */
  function Fold(zs: seq<Term>): seq<Term>
    requires |zs| >= L.N
  {
    Addl(zs[..L.N], ScalR(zs[L.N..], Lit(19)))
  }

  /** gen_fe.py:98-99. */
  function SubL(xs: seq<Term>, ys: seq<Term>, ks: seq<Term>): (r: seq<Term>)
    requires |xs| == |ys| == |ks|
    ensures |r| == |xs|
  {
    seq(|xs|, i requires 0 <= i < |xs| => Bin(NatSub, Bin(NatAdd, xs[i], ks[i]), ys[i]))
  }

  /** gen_fe.py:102-104. */
  function Kp8(R: Term): (r: seq<Term>)
    ensures |r| == L.N
  {
    [Bin(NatSub, Bin(NatMul, R, Lit(8)), Lit(152))] +
    seq(14, i => Bin(NatSub, Bin(NatMul, R, Lit(8)), Lit(8)))
  }

  /** gen_fe.py:111-116. */
  function Carry(R: Term, xs: seq<Term>, c: Term): (r: (seq<Term>, Term))
    ensures |r.0| == |xs|
    decreases |xs|
  {
    if xs == [] then ([], c)
    else
      var s := Bin(NatAdd, xs[0], c);
      var (rest, out) := Carry(R, xs[1..], Bin(NatDiv, s, R));
      ([Bin(NatMod, s, R)] + rest, out)
  }

  /** gen_fe.py:119-123. */
  function Carry0(R: Term, xs: seq<Term>): (r: (seq<Term>, Term))
    ensures |r.0| == |xs|
  {
    if xs == [] then ([], Lit(0))
    else
      var (rest, out) := Carry(R, xs[1..], Bin(NatDiv, xs[0], R));
      ([Bin(NatMod, xs[0], R)] + rest, out)
  }

  /** gen_fe.py:126-129. */
  function Pass(R: Term, xs: seq<Term>): seq<Term>
    requires |xs| >= 2
  {
    var (ls, c) := Carry0(R, xs);
    var t := Bin(NatAdd, ls[0], Bin(NatMul, c, Lit(19)));
    [Bin(NatMod, t, R), Bin(NatAdd, ls[1], Bin(NatDiv, t, R))] + ls[2..]
  }

  /** gen_fe.py:132-136. */
  function Pcs(R: Term, xs: seq<Term>, c: Term): (r: (seq<Term>, Term))
    ensures |r.0| == |xs|
    decreases |xs|
  {
    if xs == [] then ([], c)
    else
      var (rest, out) := Pcs(R, xs[1..], Bin(NatDiv, xs[0], R));
      ([Bin(NatAdd, Bin(NatMod, xs[0], R), c)] + rest, out)
  }

  /** gen_fe.py:139-141. */
  function Pc(R: Term, xs: seq<Term>): (r: seq<Term>)
    requires xs != []
    ensures |r| == |xs|
  {
    var (rest, q) := Pcs(R, xs[1..], Bin(NatDiv, xs[0], R));
    [Bin(NatAdd, Bin(NatMod, xs[0], R), Bin(NatMul, q, Lit(19)))] + rest
  }

  // ---- what the terms denote ----

  lemma LitDenotes(n: nat, env: Env)
    requires n < LIMIT
    ensures Denotes(Lit(n), env, n)
  {}

  lemma Cons(t: Term, ts: seq<Term>, env: Env, v: nat, vs: seq<nat>)
    requires Denotes(t, env, v) && Denote(ts, env, vs)
    ensures Denote([t] + ts, env, [v] + vs)
  {}

  lemma Tail(ts: seq<Term>, env: Env, vs: seq<nat>)
    requires Denote(ts, env, vs) && ts != []
    ensures Denote(ts[1..], env, vs[1..]) && Denotes(ts[0], env, vs[0])
  {}

  lemma HalfDenotes(a: Term, u: Term, env: Env, x: nat, l: nat)
    requires Denotes(a, env, x) && Denotes(u, env, l)
    requires x < 0x10_0000 && l < 0x800
    ensures Denotes(Op(ToNat, [Bin(U32Mul, Op(FromNat, [a]), u)]), env, Times(x, l))
    ensures Times(x, l) < 0x8000_0000
  {
    hide Denotes, Apply, Fits;
    MulBound(x, l, 0x10_0000, 0x800);
    HalfApply(x, l, x * l);
    Denotes1(FromNat, a, env, x);
    Denotes2(U32Mul, Op(FromNat, [a]), u, env, x, l);
    Denotes1(ToNat, Bin(U32Mul, Op(FromNat, [a]), u), env, x * l);
  }

  lemma HalfApply(x: nat, l: nat, p: nat)
    requires x < 0x10_0000 && l < 0x800 && p == x * l && p < 0x8000_0000
    ensures Fits(FromNat, [x]) && Fits(U32Mul, [x, l]) && Fits(ToNat, [p]) && Apply(U32Mul, [x, l]) == p
  {}

  /** The low 9 bits and the other bits of a factor. */
  lemma SplitDenotes(b: Term, env: Env, y: nat)
    requires Denotes(b, env, y) && y < 0x10_0000
    ensures Denotes(Bin(U32And, Op(FromNat, [b]), Lit(511)), env, y % 512)
    ensures Denotes(Bin(U32Shrn, Op(FromNat, [b]), Lit(9)), env, y / 512)
  {
    hide Denotes, And;
    Denotes1(FromNat, b, env, y);
    LitDenotes(511, env); LitDenotes(9, env);
    assert Pow2(9) == 512;
    AndMask(y, 9);
    Denotes2(U32And, Op(FromNat, [b]), Lit(511), env, y, 511);
    Denotes2(U32Shrn, Op(FromNat, [b]), Lit(9), env, y, 9);
  }

  /** a (b mod 512) + 512 a (b / 512) = a b, and neither half product leaves 32 bits. */
  lemma PmDenotes(a: Term, b: Term, env: Env, x: nat, y: nat)
    requires Denotes(a, env, x) && Denotes(b, env, y) && x < 0x10_0000 && y < 0x10_0000
    ensures Denotes(Pm(a, b), env, Times(x, y))
  {
    hide Denotes;
    SplitDenotes(b, env, y);
    var l: nat, h: nat := y % 512, y / 512;
    HalfDenotes(a, Bin(U32And, Op(FromNat, [b]), Lit(511)), env, x, l);
    HalfDenotes(a, Bin(U32Shrn, Op(FromNat, [b]), Lit(9)), env, x, h);
    PmSum(Op(ToNat, [Bin(U32Mul, Op(FromNat, [a]), Bin(U32And, Op(FromNat, [b]), Lit(511)))]),
          Op(ToNat, [Bin(U32Mul, Op(FromNat, [a]), Bin(U32Shrn, Op(FromNat, [b]), Lit(9)))]), env, x * l, x * h);
    MulAssoc(x, h, 512);
    assert x * y == x * (h * 512) + x * l;
  }

  lemma PmSum(lo: Term, hi: Term, env: Env, l: nat, h: nat)
    requires Denotes(lo, env, l) && Denotes(hi, env, h) && l < 0x8000_0000 && h < 0x8000_0000
    ensures Denotes(Bin(NatAdd, lo, Bin(NatMul, hi, Lit(512))), env, l + h * 512)
  {
    hide Denotes;
    LitDenotes(512, env);
    Denotes2(NatMul, hi, Lit(512), env, h, 512);
    Denotes2(NatAdd, lo, Bin(NatMul, hi, Lit(512)), env, l, h * 512);
  }

  lemma MulBound(a: nat, b: nat, c: nat, d: nat)
    requires a < c && b < d
    ensures 0 <= a * b < c * d
  {
    MulMono(0, a, b); MulMono(a, c, b); MulStrict(b, d, c);
  }

  lemma {:induction false} AddlDenotes(xs: seq<Term>, ys: seq<Term>, env: Env, a: seq<nat>, b: seq<nat>, p: nat, q: nat)
    requires Denote(xs, env, a) && Denote(ys, env, b)
    requires Below(a, p) && Below(b, q) && p + q <= LIMIT
    ensures Denote(Addl(xs, ys), env, L.AddN(a, b))
    decreases |xs|
  {
    hide Denotes;
    if xs != [] && ys != [] {
      AddlDenotes(xs[1..], ys[1..], env, a[1..], b[1..], p, q);
      Denotes2(NatAdd, xs[0], ys[0], env, a[0], b[0]);
      Cons(Bin(NatAdd, xs[0], ys[0]), Addl(xs[1..], ys[1..]), env, a[0] + b[0], L.AddN(a[1..], b[1..]));
    }
  }

  lemma ScalPDenotes(t: Term, ys: seq<Term>, env: Env, x: nat, b: seq<nat>)
    requires Denotes(t, env, x) && Denote(ys, env, b)
    requires x < 0x10_0000 && Below(b, 0x10_0000)
    ensures Denote(ScalP(t, ys), env, L.ScaleN(b, x))
  {
    hide Denotes, Pm;
    forall i | 0 <= i < |ys| ensures Denotes(Pm(t, ys[i]), env, b[i] * x) {
      PmDenotes(t, ys[i], env, x, b[i]);
    }
  }

  lemma ScalRDenotes(ys: seq<Term>, k: Term, env: Env, b: seq<nat>, x: nat, p: nat)
    requires Denote(ys, env, b) && Denotes(k, env, x)
    requires Below(b, p) && p * (x + 1) <= LIMIT
    ensures Denote(ScalR(ys, k), env, L.ScaleN(b, x))
  {
    hide Denotes;
    forall i | 0 <= i < |ys| ensures Denotes(Bin(NatMul, ys[i], k), env, b[i] * x) {
      MulBound(b[i], x, p, x + 1);
      Denotes2(NatMul, ys[i], k, env, b[i], x);
    }
  }

  const OK: nat := 0x8_0000
  const Q: nat := 0x40_0000_0000

  /** The schoolbook product of the generator is the polynomial product. */
  lemma {:induction false} ConvPDenotes(xs: seq<Term>, ys: seq<Term>, env: Env, a: seq<nat>, b: seq<nat>)
    requires Denote(xs, env, a) && Denote(ys, env, b) && |xs| <= 15
    requires Below(a, OK) && Below(b, OK)
    ensures Denote(ConvP(xs, ys), env, L.MulN(a, b))
    decreases |xs|
  {
    hide Denotes, Pm, Below;
    if xs != [] && ys != [] {
      Tail(xs, env, a); Tail(ys, env, b);
      L.BelowTail(a, OK); L.BelowTail(b, OK);
      L.BelowAt(a, 0, OK); L.BelowAt(b, 0, OK);
      ConvPDenotes(xs[1..], ys, env, a[1..], b);
      L.BelowMore(b[1..], OK, 0x10_0000);
      ScalPDenotes(xs[0], ys[1..], env, a[0], b[1..]);
      L.ScaleBelow(b[1..], a[0], OK, OK);
      L.MulBelow(a[1..], b, OK, Q);
      AddlDenotes(ScalP(xs[0], ys[1..]), ConvP(xs[1..], ys), env, L.ScaleN(b[1..], a[0]), L.MulN(a[1..], b),
                  Q, (|xs| - 1) * Q + 1);
      PmDenotes(xs[0], ys[0], env, a[0], b[0]);
      Cons(Pm(xs[0], ys[0]), Addl(ScalP(xs[0], ys[1..]), ConvP(xs[1..], ys)), env,
           a[0] * b[0], L.AddN(L.ScaleN(b[1..], a[0]), L.MulN(a[1..], b)));
    }
  }

  // ---- the square ----

  lemma {:induction false} AddAt(a: seq<nat>, b: seq<nat>, i: nat)
    ensures |L.AddN(a, b)| == if |a| >= |b| then |a| else |b|
    ensures i < |L.AddN(a, b)| ==> L.AddN(a, b)[i] == At(a, i) + At(b, i)
    decreases |a|
  {
    if a != [] && b != [] {
      AddAt(a[1..], b[1..], if i > 0 then i - 1 else 0);
    }
  }

  function At(a: seq<nat>, i: nat): nat { if i < |a| then a[i] else 0 }

  lemma AddSwap(a: seq<nat>, b: seq<nat>, c: seq<nat>)
    ensures L.AddN(a, L.AddN(b, c)) == L.AddN(b, L.AddN(a, c))
  {
    var x, y := L.AddN(a, L.AddN(b, c)), L.AddN(b, L.AddN(a, c));
    AddAt(a, L.AddN(b, c), 0); AddAt(b, c, 0); AddAt(b, L.AddN(a, c), 0); AddAt(a, c, 0);
    assert |x| == |y|;
    forall i | 0 <= i < |x| ensures x[i] == y[i] {
      AddAt(a, L.AddN(b, c), i); AddAt(b, c, i); AddAt(b, L.AddN(a, c), i); AddAt(a, c, i);
    }
  }

  /** Multiplying by x + R w is multiplying by x and, one limb up, by w. */
  lemma {:induction false} MulCons(u: seq<nat>, x: nat, w: seq<nat>)
    requires u != [] && w != []
    ensures L.MulN(u, [x] + w) == L.AddN(L.ScaleN(u, x), [0] + L.MulN(u, w))
    decreases |u|
  {
    var v, ut := [x] + w, u[1..];
    assert v[1..] == w;
    assert L.ScaleN(u, x)[1..] == L.ScaleN(ut, x);
    var W := L.ScaleN(w, u[0]);
    assert W[1..] == L.ScaleN(w[1..], u[0]);
    if ut == [] {
      assert L.MulN(ut, v) == [] && L.MulN(ut, w) == [];
      assert L.AddN(W, []) == W && L.AddN(W[1..], []) == W[1..] by { AddNil(W); AddNil(W[1..]); }
      assert [u[0] * w[0]] + W[1..] == W;
    } else {
      var M := L.MulN(ut, w);
      MulCons(ut, x, w);
      AddSwap(W, L.ScaleN(ut, x), [0] + M);
      assert ([0] + M)[1..] == M;
      assert L.AddN(W, [0] + M) == [W[0]] + L.AddN(W[1..], M);
    }
    assert L.MulN(u, v) == [u[0] * x] + L.AddN(W, L.MulN(ut, v));
    assert L.MulN(u, w) == [u[0] * w[0]] + L.AddN(W[1..], L.MulN(ut, w));
    assert ([0] + L.MulN(u, w))[1..] == L.MulN(u, w);
  }

  lemma AddNil(a: seq<nat>)
    ensures L.AddN(a, []) == a
  {}

  lemma CrossTwice(t: seq<nat>, x: nat, M: seq<nat>)
    requires t != []
    ensures var S, D := L.ScaleN(t, x), L.ScaleN(L.ScaleN(t[1..], 2), x);
            L.AddN(S, L.AddN(S, [0] + M)) == [x * (t[0] + t[0])] + L.AddN(D, M)
  {
    hide L.AddN;
    var S, D := L.ScaleN(t, x), L.ScaleN(L.ScaleN(t[1..], 2), x);
    var got, want := L.AddN(S, L.AddN(S, [0] + M)), [x * (t[0] + t[0])] + L.AddN(D, M);
    AddAt(S, L.AddN(S, [0] + M), 0); AddAt(S, [0] + M, 0); AddAt(D, M, 0);
    forall i | 0 <= i < |got| ensures got[i] == want[i] {
      AddAt(S, L.AddN(S, [0] + M), i); AddAt(S, [0] + M, i);
      if i > 0 {
        AddAt(D, M, i - 1);
        if i < |t| { Doubled(t[i], x); }
      }
    }
  }

  lemma Doubled(t: int, x: int)
    ensures (t * 2) * x == 2 * (t * x)
  {}

  /** Each cross product counted twice is the whole product. */
  lemma SquareTwice(x: nat, t: seq<nat>)
    requires t != []
    ensures L.MulN([x] + t, [x] + t) ==
            [x * x] + ([x * (t[0] + t[0])] + L.AddN(L.ScaleN(L.ScaleN(t[1..], 2), x), L.MulN(t, t)))
  {
    hide L.AddN, L.MulN, L.ScaleN;
    MulCons(t, x, t);
    CrossTwice(t, x, L.MulN(t, t));
    MulHead(x, t, x, t);
  }

  lemma MulHead(x: nat, t: seq<nat>, y: nat, u: seq<nat>)
    ensures L.MulN([x] + t, [y] + u) == [x * y] + L.AddN(L.ScaleN(u, x), L.MulN(t, [y] + u))
  {
    hide L.AddN, L.ScaleN;
    assert ([x] + t)[1..] == t && ([y] + u)[1..] == u;
  }

  lemma DblDenotes(ys: seq<Term>, env: Env, b: seq<nat>)
    requires Denote(ys, env, b) && Below(b, OK)
    ensures Denote(Dbl(ys), env, L.ScaleN(b, 2))
  {
    hide Denotes;
    forall i | 0 <= i < |ys| ensures Denotes(Bin(NatAdd, ys[i], ys[i]), env, b[i] * 2) {
      Denotes2(NatAdd, ys[i], ys[i], env, b[i], b[i]);
    }
  }

  /** The square of the generator is the polynomial product of the limbs with themselves. */
  lemma {:induction false} SqPDenotes(xs: seq<Term>, env: Env, a: seq<nat>)
    requires Denote(xs, env, a) && |xs| <= 15 && Below(a, OK)
    ensures Denote(SqP(xs), env, L.MulN(a, a))
    decreases |xs|
  {
    hide Denotes, Pm, Below, L.MulN;
    if |xs| == 0 {
      assert L.MulN(a, a) == [] by { L.MulValue(a, a); }
    } else {
      L.BelowAt(a, 0, OK);
      PmDenotes(xs[0], xs[0], env, a[0], a[0]);
      if |xs| == 1 {
        OneSquare(a);
      } else {
        assert a == [a[0]] + a[1..];
        SquareTwice(a[0], a[1..]);
        assert a[1..][1..] == a[2..];
        SqPDenotes(xs[1..], env, a[1..]) by { L.BelowTail(a, OK); }
        CrossDenotes(xs, env, a);
        L.BelowAt(a, 1, OK);
        Denotes2(NatAdd, xs[1], xs[1], env, a[1], a[1]);
        PmDenotes(xs[0], Bin(NatAdd, xs[1], xs[1]), env, a[0], a[1] + a[1]);
      }
    }
  }

  lemma OneSquare(a: seq<nat>)
    requires |a| == 1
    ensures L.MulN(a, a) == [a[0] * a[0]]
  {}

  lemma CrossDenotes(xs: seq<Term>, env: Env, a: seq<nat>)
    requires 2 <= |xs| <= 15 && Denote(xs, env, a) && Below(a, OK)
    requires Denote(SqP(xs[1..]), env, L.MulN(a[1..], a[1..]))
    ensures Denote(Addl(ScalP(xs[0], Dbl(xs[2..])), SqP(xs[1..])), env,
                   L.AddN(L.ScaleN(L.ScaleN(a[2..], 2), a[0]), L.MulN(a[1..], a[1..])))
  {
    hide Denotes, Pm, L.MulN, SqP;
    var d := L.ScaleN(a[2..], 2);
    DblDenotes(xs[2..], env, a[2..]);
    ScalPDenotes(xs[0], Dbl(xs[2..]), env, a[0], d);
    L.ScaleBelow(d, a[0], 0x10_0000, OK);
    L.MulBelow(a[1..], a[1..], OK, Q);
    AddlDenotes(ScalP(xs[0], Dbl(xs[2..])), SqP(xs[1..]), env, L.ScaleN(d, a[0]), L.MulN(a[1..], a[1..]),
                2 * Q, (|xs| - 1) * Q + 1);
  }

  // ---- the fold and the passes ----

  lemma FoldDenotes(zs: seq<Term>, env: Env, v: seq<nat>, b: nat)
    requires Denote(zs, env, v) && |zs| >= L.N && Below(v, b) && 21 * b <= LIMIT
    ensures Denote(Fold(zs), env, L.FoldN(v))
  {
    hide Denotes;
    LitDenotes(19, env);
    ScalRDenotes(zs[L.N..], Lit(19), env, v[L.N..], 19, b);
    L.ScaleBelow(v[L.N..], 19, b, 20);
    AddlDenotes(zs[..L.N], ScalR(zs[L.N..], Lit(19)), env, v[..L.N], L.ScaleN(v[L.N..], 19), b, b * 20);
  }

  /** The quotient and the remainder by the radix. */
  lemma SplitLimb(R: Term, s: Term, env: Env, v: nat)
    requires Denotes(R, env, L.R) && Denotes(s, env, v)
    ensures Denotes(Bin(NatDiv, s, R), env, v / L.R) && Denotes(Bin(NatMod, s, R), env, v % L.R)
  {
    hide Denotes;
    Denotes2(NatDiv, s, R, env, v, L.R);
    Denotes2(NatMod, s, R, env, v, L.R);
  }

  lemma {:induction false} CarryDenotes(R: Term, xs: seq<Term>, c: Term, env: Env, a: seq<nat>, cv: nat, b: nat, K: nat)
    requires Denotes(R, env, L.R) && Denote(xs, env, a) && Denotes(c, env, cv)
    requires Below(a, b) && cv < K && b + K <= L.R * K && b + K <= LIMIT
    ensures Denote(Carry(R, xs, c).0, env, L.CarryN(a, cv).0)
    ensures Denotes(Carry(R, xs, c).1, env, L.CarryN(a, cv).1)
    decreases |xs|
  {
    hide Denotes, Below;
    if xs != [] {
      L.BelowAt(a, 0, b); L.BelowTail(a, b);
      var s, v := Bin(NatAdd, xs[0], c), a[0] + cv;
      Denotes2(NatAdd, xs[0], c, env, a[0], cv);
      SplitLimb(R, s, env, v);
      Tail(xs, env, a);
      CarryDenotes(R, xs[1..], Bin(NatDiv, s, R), env, a[1..], v / L.R, b, K);
      Cons(Bin(NatMod, s, R), Carry(R, xs[1..], Bin(NatDiv, s, R)).0, env, v % L.R, L.CarryN(a[1..], v / L.R).0);
    }
  }

  lemma PassDenotes(R: Term, xs: seq<Term>, env: Env, a: seq<nat>)
    requires Denotes(R, env, L.R) && Denote(xs, env, a) && |xs| == L.N && Below(a, 0x8000_0000_0000)
    ensures Denote(Pass(R, xs), env, L.PassN(a))
  {
    hide Denotes, Below, L.CarryN, Carry;
    var B, K := 0x8000_0000_0000, 0x8000_0000;
    L.BelowAt(a, 0, B); L.BelowTail(a, B);
    Tail(xs, env, a);
    SplitLimb(R, xs[0], env, a[0]);
    CarryDenotes(R, xs[1..], Bin(NatDiv, xs[0], R), env, a[1..], a[0] / L.R, B, K);
    Carry0Head(R, xs, env, a);
    L.CarryValue(a, 0, B, K);
    PassEnd(R, xs, env, a);
  }

  lemma Carry0Head(R: Term, xs: seq<Term>, env: Env, a: seq<nat>)
    requires xs != [] && a != []
    requires Denotes(Bin(NatMod, xs[0], R), env, a[0] % L.R)
    requires Denote(Carry(R, xs[1..], Bin(NatDiv, xs[0], R)).0, env, L.CarryN(a[1..], a[0] / L.R).0)
    requires Denotes(Carry(R, xs[1..], Bin(NatDiv, xs[0], R)).1, env, L.CarryN(a[1..], a[0] / L.R).1)
    ensures Denote(Carry0(R, xs).0, env, L.CarryN(a, 0).0) && Denotes(Carry0(R, xs).1, env, L.CarryN(a, 0).1)
  {
    hide Denotes, Carry;
  }

  lemma PassEnd(R: Term, xs: seq<Term>, env: Env, a: seq<nat>)
    requires |xs| == |a| == L.N && Denotes(R, env, L.R)
    requires Denote(Carry0(R, xs).0, env, L.CarryN(a, 0).0) && Denotes(Carry0(R, xs).1, env, L.CarryN(a, 0).1)
    requires L.CarryN(a, 0).1 < 0x8000_0000 && Below(L.CarryN(a, 0).0, L.R) && |L.CarryN(a, 0).0| == L.N
    ensures Denote(Pass(R, xs), env, L.PassN(a))
  {
    hide Denotes, Carry0, L.CarryN, Below;
    var (ls, c) := Carry0(R, xs);
    var (lv, cv) := L.CarryN(a, 0);
    L.BelowAt(lv, 0, L.R); L.BelowAt(lv, 1, L.R);
    LitDenotes(19, env);
    Denotes2(NatMul, c, Lit(19), env, cv, 19);
    var t, tv := Bin(NatAdd, ls[0], Bin(NatMul, c, Lit(19))), lv[0] + cv * 19;
    Denotes2(NatAdd, ls[0], Bin(NatMul, c, Lit(19)), env, lv[0], cv * 19);
    SplitLimb(R, t, env, tv);
    Denotes2(NatAdd, ls[1], Bin(NatDiv, t, R), env, lv[1], tv / L.R);
  }

  lemma {:induction false} PcsDenotes(R: Term, xs: seq<Term>, c: Term, env: Env, a: seq<nat>, cv: nat, b: nat)
    requires Denotes(R, env, L.R) && Denote(xs, env, a) && Denotes(c, env, cv)
    requires Below(a, b * L.R) && cv < b && b <= 0x10_0000_0000
    ensures Denote(Pcs(R, xs, c).0, env, L.CarriesN(a, cv).0)
    ensures Denotes(Pcs(R, xs, c).1, env, L.CarriesN(a, cv).1)
    decreases |xs|
  {
    hide Denotes, Below;
    if xs != [] {
      L.BelowAt(a, 0, b * L.R); L.BelowTail(a, b * L.R);
      Tail(xs, env, a);
      SplitLimb(R, xs[0], env, a[0]);
      var d, m := Bin(NatDiv, xs[0], R), Bin(NatMod, xs[0], R);
      Denotes2(NatAdd, m, c, env, a[0] % L.R, cv);
      PcsDenotes(R, xs[1..], d, env, a[1..], a[0] / L.R, b);
      Cons(Bin(NatAdd, m, c), Pcs(R, xs[1..], d).0, env, a[0] % L.R + cv, L.CarriesN(a[1..], a[0] / L.R).0);
    }
  }

  lemma PcDenotes(R: Term, xs: seq<Term>, env: Env, a: seq<nat>, b: nat)
    requires Denotes(R, env, L.R) && Denote(xs, env, a) && xs != []
    requires Below(a, b * L.R) && 0 < b <= 0x10_0000_0000
    ensures Denote(Pc(R, xs), env, L.ParallelN(a))
  {
    hide Denotes, Below, Pcs, L.CarriesN;
    L.BelowAt(a, 0, b * L.R); L.BelowTail(a, b * L.R);
    Tail(xs, env, a);
    SplitLimb(R, xs[0], env, a[0]);
    var d, m := Bin(NatDiv, xs[0], R), Bin(NatMod, xs[0], R);
    PcsDenotes(R, xs[1..], d, env, a[1..], a[0] / L.R, b);
    L.CarriesValue(a[1..], a[0] / L.R, b);
    var (rest, q) := Pcs(R, xs[1..], d);
    var qv := L.CarriesN(a[1..], a[0] / L.R).1;
    LitDenotes(19, env);
    Denotes2(NatMul, q, Lit(19), env, qv, 19);
    Denotes2(NatAdd, m, Bin(NatMul, q, Lit(19)), env, a[0] % L.R, qv * 19);
    Cons(Bin(NatAdd, m, Bin(NatMul, q, Lit(19))), rest, env, a[0] % L.R + qv * 19,
         L.CarriesN(a[1..], a[0] / L.R).0);
  }

  lemma Kp8Denotes(R: Term, env: Env)
    requires Denotes(R, env, L.R)
    ensures Denote(Kp8(R), env, L.EightP())
  {
    hide Denotes;
    LitDenotes(8, env); LitDenotes(152, env);
    Denotes2(NatMul, R, Lit(8), env, L.R, 8);
    Denotes2(NatSub, Bin(NatMul, R, Lit(8)), Lit(152), env, 8 * L.R, 152);
    Denotes2(NatSub, Bin(NatMul, R, Lit(8)), Lit(8), env, 8 * L.R, 8);
  }

  lemma SubLDenotes(xs: seq<Term>, ys: seq<Term>, ks: seq<Term>, env: Env, a: seq<nat>, b: seq<nat>, k: seq<nat>)
    requires |xs| == |ys| == |ks|
    requires Denote(xs, env, a) && Denote(ys, env, b) && Denote(ks, env, k)
    requires forall i :: 0 <= i < |xs| ==> b[i] <= k[i] && a[i] + k[i] < LIMIT
    ensures Denote(SubL(xs, ys, ks), env, L.SubN(a, b, k))
  {
    hide Denotes;
    forall i | 0 <= i < |xs|
      ensures Denotes(Bin(NatSub, Bin(NatAdd, xs[i], ks[i]), ys[i]), env, a[i] + k[i] - b[i])
    {
      Denotes2(NatAdd, xs[i], ks[i], env, a[i], k[i]);
      Denotes2(NatSub, Bin(NatAdd, xs[i], ks[i]), ys[i], env, a[i] + k[i], b[i]);
    }
  }

  // ---- the five generated operations ----

  function AddCode(R: Term, xs: seq<Term>, ys: seq<Term>): seq<Term>
    requires |xs| == |ys| == L.N
  {
    Pc(R, Addl(xs, ys))
  }

  function SubCode(R: Term, xs: seq<Term>, ys: seq<Term>): seq<Term>
    requires |xs| == |ys| == L.N
  {
    Pc(R, SubL(xs, ys, Kp8(R)))
  }

  function MulCode(R: Term, xs: seq<Term>, ys: seq<Term>): seq<Term>
    requires |xs| == |ys| == L.N
  {
    ConvLength(xs, ys);
    Pass(R, Fold(ConvP(xs, ys)))
  }

  function SqCode(R: Term, xs: seq<Term>): seq<Term>
    requires |xs| == L.N
  {
    SqLength(xs);
    Pass(R, Fold(SqP(xs)))
  }

  function MulSmallCode(R: Term, xs: seq<Term>, k: Term): seq<Term>
    requires |xs| == L.N
  {
    Pc(R, Pc(R, ScalR(xs, k)))
  }

  lemma {:induction false} AddlLength(xs: seq<Term>, ys: seq<Term>)
    ensures |Addl(xs, ys)| == if |xs| >= |ys| then |xs| else |ys|
    decreases |xs|
  {
    if xs != [] && ys != [] { AddlLength(xs[1..], ys[1..]); }
  }

  lemma {:induction false} ConvLength(xs: seq<Term>, ys: seq<Term>)
    ensures |ConvP(xs, ys)| == if xs == [] || ys == [] then 0 else |xs| + |ys| - 1
    ensures |xs| == |ys| == L.N ==> |Fold(ConvP(xs, ys))| == L.N
    decreases |xs|
  {
    if xs != [] && ys != [] {
      ConvLength(xs[1..], ys);
      AddlLength(ScalP(xs[0], ys[1..]), ConvP(xs[1..], ys));
    }
    if |xs| == |ys| == L.N {
      var zs := ConvP(xs, ys);
      AddlLength(zs[..L.N], ScalR(zs[L.N..], Lit(19)));
    }
  }

  lemma {:induction false} SqLength(xs: seq<Term>)
    ensures |SqP(xs)| == if xs == [] then 0 else 2 * |xs| - 1
    ensures |xs| == L.N ==> |Fold(SqP(xs))| == L.N
    decreases |xs|
  {
    if |xs| >= 2 {
      SqLength(xs[1..]);
      AddlLength(ScalP(xs[0], Dbl(xs[2..])), SqP(xs[1..]));
    }
    if |xs| == L.N {
      var zs := SqP(xs);
      AddlLength(zs[..L.N], ScalR(zs[L.N..], Lit(19)));
    }
  }

  /** The generated addition: exact throughout, and the sum modulo p. */
  lemma AddCodeCorrect(R: Term, xs: seq<Term>, ys: seq<Term>, env: Env, a: seq<nat>, b: seq<nat>)
    requires Denotes(R, env, L.R) && Denote(xs, env, a) && Denote(ys, env, b) && L.Ok(a) && L.Ok(b)
    ensures var r := L.FeAdd(a, b);
            Denote(AddCode(R, xs, ys), env, r) && L.Ok(r) && L.Same(L.Lv(r), L.Lv(a) + L.Lv(b))
  {
    hide Denotes, Pc, L.ParallelN, Addl, L.AddN, L.Same;
    AddlDenotes(xs, ys, env, a, b, OK, OK);
    L.AddBelow(a, b, OK, OK);
    L.AddValue(a, b); AddlLength(xs, ys);
    PcDenotes(R, Addl(xs, ys), env, L.AddN(a, b), 8);
    L.FeAddValue(a, b);
  }

  /** The generated subtraction: 8 p is added first, so no limb saturates. */
  lemma SubCodeCorrect(R: Term, xs: seq<Term>, ys: seq<Term>, env: Env, a: seq<nat>, b: seq<nat>)
    requires Denotes(R, env, L.R) && Denote(xs, env, a) && Denote(ys, env, b) && L.Ok(a) && L.Ok(b)
    ensures var r := L.FeSub(a, b);
            Denote(SubCode(R, xs, ys), env, r) && L.Ok(r) && L.Same(L.Lv(r), L.Lv(a) - L.Lv(b))
  {
    hide Denotes, Pc, L.ParallelN, L.Same;
    Kp8Denotes(R, env);
    SubLDenotes(xs, ys, Kp8(R), env, a, b, L.EightP());
    PcDenotes(R, SubL(xs, ys, Kp8(R)), env, L.SubN(a, b, L.EightP()), 16);
    L.FeSubValue(a, b);
  }

  /** The generated product. */
  lemma MulCodeCorrect(R: Term, xs: seq<Term>, ys: seq<Term>, env: Env, a: seq<nat>, b: seq<nat>)
    requires Denotes(R, env, L.R) && Denote(xs, env, a) && Denote(ys, env, b) && L.Ok(a) && L.Ok(b)
    ensures var r := L.FeMul(a, b);
            Denote(MulCode(R, xs, ys), env, r) && L.Ok(r) && L.Same(L.Lv(r), L.Lv(a) * L.Lv(b))
  {
    hide Denotes, Pass, L.PassN, Fold, L.FoldN, ConvP, L.MulN, L.Same, L.Lv;
    ConvPDenotes(xs, ys, env, a, b);
    ReduceDenotes(R, ConvP(xs, ys), env, a, b);
    ConvLength(xs, ys);
    L.FeMulValue(a, b);
  }

  /** The generated square computes each cross product once and has the limbs of the product. */
  lemma SqCodeCorrect(R: Term, xs: seq<Term>, env: Env, a: seq<nat>)
    requires Denotes(R, env, L.R) && Denote(xs, env, a) && L.Ok(a)
    ensures Denote(SqCode(R, xs), env, L.FeMul(a, a))
    ensures Denote(MulCode(R, xs, xs), env, L.FeMul(a, a))
  {
    hide Denotes, Pass, L.PassN, Fold, L.FoldN, SqP, L.MulN, MulCode;
    SqPDenotes(xs, env, a);
    SqLength(xs);
    ReduceDenotes(R, SqP(xs), env, a, a);
    MulCodeCorrect(R, xs, xs, env, a, a);
  }

  lemma ReduceDenotes(R: Term, zs: seq<Term>, env: Env, a: seq<nat>, b: seq<nat>)
    requires Denotes(R, env, L.R) && Denote(zs, env, L.MulN(a, b)) && L.Ok(a) && L.Ok(b)
    ensures |L.MulN(a, b)| == |zs| == 29 && |Fold(zs)| == L.N
    ensures Denote(Pass(R, Fold(zs)), env, L.PassN(L.FoldN(L.MulN(a, b))))
  {
    hide Denotes, Pass, L.PassN, Addl, L.FoldN, L.MulN;
    var m := L.MulN(a, b);
    L.MulValue(a, b);
    L.MulBelow(a, b, OK, Q);
    FoldDenotes(zs, env, m, 15 * Q + 1);
    L.FoldBelow(m, 15 * Q + 1);
    AddlLength(zs[..L.N], ScalR(zs[L.N..], Lit(19)));
    PassDenotes(R, Fold(zs), env, L.FoldN(m));
  }

  /** The generated product by k < 2^17. */
  lemma MulSmallCodeCorrect(R: Term, xs: seq<Term>, k: Term, env: Env, a: seq<nat>, x: nat)
    requires Denotes(R, env, L.R) && Denote(xs, env, a) && Denotes(k, env, x) && L.Ok(a) && x < L.R
    ensures var r := L.FeMulSmall(a, x);
            Denote(MulSmallCode(R, xs, k), env, r) && L.Ok(r) && L.Same(L.Lv(r), L.Lv(a) * x)
  {
    hide Denotes, Pc, L.ParallelN, L.Same;
    MulBound(OK, x, OK + 1, L.R);
    MulMono(x + 1, L.R, OK);
    ScalRDenotes(xs, k, env, a, x, OK);
    L.ScaleBelow(a, x, OK, L.R);
    PcDenotes(R, ScalR(xs, k), env, L.ScaleN(a, x), OK);
    L.ParallelValue(L.ScaleN(a, x), OK);
    PcDenotes(R, Pc(R, ScalR(xs, k)), env, L.ParallelN(L.ScaleN(a, x)), 0x100);
    L.FeMulSmallValue(a, x);
  }
}
