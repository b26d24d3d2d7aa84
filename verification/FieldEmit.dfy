/** The whole generators (tools/gen_fe.py:181-205, 389-401 and tools/gen_scalar.py:61-68): the code
    emitted for each field operation, run on any limbs below 2^19, returns limbs below 2^19 of the
    right value modulo 2^255 - 19, and the code emitted for the scalar step is exact. */
module FieldEmit {
  import opened Sequences
  import opened Terms
  import opened Emit
  import opened FieldCode
  import L = Limbs
  import S = Scalar

  /** The variables a0 to a14 of one operand. */
  function Vars(name: string): (r: seq<Term>)
    ensures |r| == L.N && forall i :: 0 <= i < L.N ==> r[i] == V(name + Decimal(i))
  {
    seq(L.N, i requires 0 <= i < L.N => V(Name(name, i)))
  }

  function Values(name: string, env: Env): (r: seq<nat>)
    ensures |r| == L.N && forall i :: 0 <= i < L.N ==> r[i] == env(name + Decimal(i))
  {
    Evals(Vars(name), env)
  }

  /** The operators as they are on Nat and U32. */
  function NatInterp(env: Env): Interp<nat> { Interp(env, n => n, Apply) }

  lemma {:induction false} MeaningIsEval(t: Term, env: Env)
    ensures Meaning(t, NatInterp(env), map[]) == Eval(t, env)
    decreases t
  {
    match t
    case V(x) =>
    case Lit(n) =>
    case Op(h, args) =>
      forall k | 0 <= k < |args|
        ensures Meanings(args, NatInterp(env), map[])[k] == Evals(args, env)[k]
      {
        MeaningIsEval(args[k], env);
      }
      assert Meanings(args, NatInterp(env), map[]) == Evals(args, env);
  }

  // ---- the generated terms use no let name as a variable ----

  ghost predicate Clean(t: Term, pre: string)
    decreases t
  {
    match t
    case V(x) => forall k: nat :: x != Name(pre, k)
    case Lit(n) => true
    case Op(h, args) => forall k :: 0 <= k < |args| ==> Clean(args[k], pre)
  }

  ghost predicate AllClean(ts: seq<Term>, pre: string) {
    forall k :: 0 <= k < |ts| ==> Clean(ts[k], pre)
  }

  lemma {:induction false} CleanFresh(t: Term, pre: string)
    requires Clean(t, pre)
    ensures Fresh(Subterms(t), pre)
    decreases t
  {
    if t.Op? { AllCleanFresh(t.args, pre); }
  }

  lemma {:induction false} AllCleanFresh(ts: seq<Term>, pre: string)
    requires AllClean(ts, pre)
    ensures Fresh(AllSubterms(ts), pre)
    decreases ts
  {
    if ts != [] {
      var n := |ts| - 1;
      AllCleanFresh(ts[..n], pre);
      CleanFresh(ts[n], pre);
    }
  }

  lemma {:induction false} AddlClean(xs: seq<Term>, ys: seq<Term>, pre: string)
    requires AllClean(xs, pre) && AllClean(ys, pre)
    ensures AllClean(Addl(xs, ys), pre)
    decreases |xs|
  {
    if xs != [] && ys != [] { AddlClean(xs[1..], ys[1..], pre); }
  }

  lemma BinClean(h: Head, a: Term, b: Term, pre: string)
    requires Clean(a, pre) && Clean(b, pre)
    ensures Clean(Bin(h, a, b), pre)
  {}

  lemma UnaryClean(h: Head, a: Term, pre: string)
    requires Clean(a, pre)
    ensures Clean(Op(h, [a]), pre)
  {}

  lemma LitClean(n: nat, pre: string)
    ensures Clean(Lit(n), pre)
  {}

  lemma PmClean(a: Term, b: Term, pre: string)
    requires Clean(a, pre) && Clean(b, pre)
    ensures Clean(Pm(a, b), pre)
  {
    hide Clean;
    var ua, ub := Op(FromNat, [a]), Op(FromNat, [b]);
    UnaryClean(FromNat, a, pre); UnaryClean(FromNat, b, pre);
    LitClean(511, pre); LitClean(9, pre); LitClean(512, pre);
    BinClean(U32And, ub, Lit(511), pre); BinClean(U32Shrn, ub, Lit(9), pre);
    var l, h := Bin(U32Mul, ua, Bin(U32And, ub, Lit(511))), Bin(U32Mul, ua, Bin(U32Shrn, ub, Lit(9)));
    BinClean(U32Mul, ua, Bin(U32And, ub, Lit(511)), pre); BinClean(U32Mul, ua, Bin(U32Shrn, ub, Lit(9)), pre);
    UnaryClean(ToNat, l, pre); UnaryClean(ToNat, h, pre);
    BinClean(NatMul, Op(ToNat, [h]), Lit(512), pre);
    BinClean(NatAdd, Op(ToNat, [l]), Bin(NatMul, Op(ToNat, [h]), Lit(512)), pre);
  }

  lemma ScalPClean(t: Term, ys: seq<Term>, pre: string)
    requires Clean(t, pre) && AllClean(ys, pre)
    ensures AllClean(ScalP(t, ys), pre)
  {
    hide Pm, Clean;
    forall k | 0 <= k < |ys| ensures Clean(Pm(t, ys[k]), pre) { PmClean(t, ys[k], pre); }
  }

  lemma {:induction false} ConvPClean(xs: seq<Term>, ys: seq<Term>, pre: string)
    requires AllClean(xs, pre) && AllClean(ys, pre)
    ensures AllClean(ConvP(xs, ys), pre)
    decreases |xs|
  {
    hide Pm, Clean;
    if xs != [] && ys != [] {
      ConvPClean(xs[1..], ys, pre);
      ScalPClean(xs[0], ys[1..], pre);
      PmClean(xs[0], ys[0], pre);
      AddlClean(ScalP(xs[0], ys[1..]), ConvP(xs[1..], ys), pre);
    }
  }

  lemma {:induction false} SqPClean(xs: seq<Term>, pre: string)
    requires AllClean(xs, pre)
    ensures AllClean(SqP(xs), pre)
    decreases |xs|
  {
    hide Pm;
    if xs != [] { PmClean(xs[0], xs[0], pre); }
    if |xs| > 1 {
      SqPClean(xs[1..], pre);
      PmClean(xs[0], Bin(NatAdd, xs[1], xs[1]), pre);
      ScalPClean(xs[0], Dbl(xs[2..]), pre);
      AddlClean(ScalP(xs[0], Dbl(xs[2..])), SqP(xs[1..]), pre);
    }
  }

  lemma FoldClean(zs: seq<Term>, pre: string)
    requires |zs| >= L.N && AllClean(zs, pre)
    ensures AllClean(Fold(zs), pre)
  {
    AddlClean(zs[..L.N], ScalR(zs[L.N..], Lit(19)), pre);
  }

  lemma {:induction false} CarryClean(R: Term, xs: seq<Term>, c: Term, pre: string)
    requires Clean(R, pre) && AllClean(xs, pre) && Clean(c, pre)
    ensures AllClean(Carry(R, xs, c).0, pre) && Clean(Carry(R, xs, c).1, pre)
    decreases |xs|
  {
    if xs != [] { CarryClean(R, xs[1..], Bin(NatDiv, Bin(NatAdd, xs[0], c), R), pre); }
  }

  lemma PassClean(R: Term, xs: seq<Term>, pre: string)
    requires Clean(R, pre) && AllClean(xs, pre) && |xs| >= 2
    ensures AllClean(Pass(R, xs), pre)
  {
    hide Clean, Carry;
    BinClean(NatDiv, xs[0], R, pre); BinClean(NatMod, xs[0], R, pre);
    CarryClean(R, xs[1..], Bin(NatDiv, xs[0], R), pre);
    var (ls, c) := Carry0(R, xs);
    var m := Bin(NatMul, c, Lit(19));
    var t := Bin(NatAdd, ls[0], m);
    LitClean(19, pre);
    BinClean(NatMul, c, Lit(19), pre); BinClean(NatAdd, ls[0], m, pre);
    BinClean(NatMod, t, R, pre); BinClean(NatDiv, t, R, pre);
    BinClean(NatAdd, ls[1], Bin(NatDiv, t, R), pre);
  }

  lemma {:induction false} PcsClean(R: Term, xs: seq<Term>, c: Term, pre: string)
    requires Clean(R, pre) && AllClean(xs, pre) && Clean(c, pre)
    ensures AllClean(Pcs(R, xs, c).0, pre) && Clean(Pcs(R, xs, c).1, pre)
    decreases |xs|
  {
    if xs != [] { PcsClean(R, xs[1..], Bin(NatDiv, xs[0], R), pre); }
  }

  lemma PcClean(R: Term, xs: seq<Term>, pre: string)
    requires Clean(R, pre) && AllClean(xs, pre) && xs != []
    ensures AllClean(Pc(R, xs), pre)
  {
    hide Clean, Pcs;
    var d, m := Bin(NatDiv, xs[0], R), Bin(NatMod, xs[0], R);
    BinClean(NatDiv, xs[0], R, pre); BinClean(NatMod, xs[0], R, pre);
    PcsClean(R, xs[1..], d, pre);
    var (rest, q) := Pcs(R, xs[1..], d);
    LitClean(19, pre);
    BinClean(NatMul, q, Lit(19), pre);
    BinClean(NatAdd, m, Bin(NatMul, q, Lit(19)), pre);
  }

  lemma SubLClean(R: Term, xs: seq<Term>, ys: seq<Term>, pre: string)
    requires |xs| == |ys| == L.N && Clean(R, pre) && AllClean(xs, pre) && AllClean(ys, pre)
    ensures AllClean(SubL(xs, ys, Kp8(R)), pre)
  {
    hide Clean;
    LitClean(8, pre); LitClean(152, pre);
    var r := Bin(NatMul, R, Lit(8));
    BinClean(NatMul, R, Lit(8), pre);
    BinClean(NatSub, r, Lit(152), pre); BinClean(NatSub, r, Lit(8), pre);
    var ks := Kp8(R);
    forall k | 0 <= k < L.N ensures Clean(SubL(xs, ys, ks)[k], pre) {
      BinClean(NatAdd, xs[k], ks[k], pre);
      BinClean(NatSub, Bin(NatAdd, xs[k], ks[k]), ys[k], pre);
    }
  }

  lemma VarClean(name: string, pre: string)
    requires name != [] && pre != [] && name[0] != pre[0]
    ensures AllClean(Vars(name), pre) && Clean(V(name), pre)
  {
    forall i: nat, k: nat ensures Name(name, i) != Name(pre, k) {
      assert Name(name, i)[0] == name[0] && Name(pre, k)[0] == pre[0];
    }
    forall k: nat ensures name != Name(pre, k) { assert Name(pre, k)[0] == pre[0]; }
  }

  // ---- the emitted operations ----

  /** The variables where the names in lets are bound. */
  function With(env: Env, lets: map<string, nat>): Env {
    (x: string) => if x in lets then lets[x] else env(x)
  }

  /** Every operator of every let line and result, run on the values of the lines before it, neither
      wraps nor truncates, and every value stays below 2^48. */
  ghost predicate Exact(lines: seq<Line>, results: seq<Term>, env: Env) {
    && (forall k :: 0 <= k < |lines| ==> Safe(lines[k].1, With(env, RunLines(lines[..k], NatInterp(env)))))
    && (forall k :: 0 <= k < |results| ==> Safe(results[k], With(env, RunLines(lines, NatInterp(env)))))
  }

  lemma {:induction false} EvalWith(t: Term, env: Env, lets: map<string, nat>)
    ensures Eval(t, With(env, lets)) == Meaning(t, NatInterp(env), lets)
    decreases t
  {
    match t
    case V(x) =>
    case Lit(n) =>
    case Op(h, args) =>
      forall k | 0 <= k < |args|
        ensures Evals(args, With(env, lets))[k] == Meanings(args, NatInterp(env), lets)[k]
      {
        EvalWith(args[k], env, lets);
      }
      assert Evals(args, With(env, lets)) == Meanings(args, NatInterp(env), lets);
  }

  /** A shown term has its own term's value and stays as exact. */
  lemma {:induction false} ShowSafe(t: Term, names: map<Term, string>, lets: map<string, nat>, env: Env)
    requires Faithful(names, lets, NatInterp(env)) && Unbound(t, lets.Keys) && Safe(t, env)
    ensures Safe(Show(t, names), With(env, lets)) && Eval(Show(t, names), With(env, lets)) == Eval(t, env)
    decreases t, 1
  {
    hide Meaning, NatInterp, Safe;
    ShowMeaning(t, names, lets, NatInterp(env));
    EvalWith(Show(t, names), env, lets);
    MeaningIsEval(t, env);
    if t in names { VarSafe(t, names[t], env, With(env, lets)); } else { ExpandSafe(t, names, lets, env); }
  }

  lemma VarSafe(t: Term, x: string, env: Env, env': Env)
    requires Safe(t, env) && Eval(V(x), env') == Eval(t, env)
    ensures Safe(V(x), env')
  {}

  lemma {:induction false} ExpandSafe(t: Term, names: map<Term, string>, lets: map<string, nat>, env: Env)
    requires Faithful(names, lets, NatInterp(env)) && Unbound(t, lets.Keys) && Safe(t, env)
    ensures Safe(Expand(t, names), With(env, lets))
    decreases t, 0
  {
    hide Meaning, Faithful, With;
    ExpandMeaning(t, names, lets, NatInterp(env));
    EvalWith(Expand(t, names), env, lets);
    MeaningIsEval(t, env);
    if t.Op? {
      var args, shown := t.args, Expand(t, names).args;
      forall k | 0 <= k < |args|
        ensures Safe(shown[k], With(env, lets)) && Eval(shown[k], With(env, lets)) == Eval(args[k], env)
      {
        ArgSubterms(args, k);
        ShowSafe(args[k], names, lets, env);
      }
      assert Evals(shown, With(env, lets)) == Evals(args, env);
    }
  }

  lemma {:induction false} SubtermSafe(t: Term, u: Term, env: Env)
    requires Safe(t, env) && u in Subterms(t)
    ensures Safe(u, env)
    decreases t
  {
    if u != t {
      ArgOf(t.args, u);
      var k: nat :| k < |t.args| && u in Subterms(t.args[k]);
      SubtermSafe(t.args[k], u, env);
    }
  }

  /** Sharing keeps the emitted code as exact as the terms it was made from. */
  lemma EmittedExact(code: seq<Term>, names: map<Term, string>, lines: seq<Line>, bound: seq<Term>,
                     results: seq<Term>, env: Env)
    requires Emitted(code, names, lines, bound, results, "w") && Fresh(AllSubterms(code), "w")
    requires forall k :: 0 <= k < |code| ==> Safe(code[k], env)
    ensures Exact(lines, results, env)
  {
    hide Show, Expand, LinesWritten, AllWritten, Meaning, RunLines, Safe, With, Faithful;
    BoundSubterms(code, names, bound, "w");
    var i := NatInterp(env);
    forall k | 0 <= k < |lines| ensures Safe(lines[k].1, With(env, RunLines(lines[..k], i))) {
      LinesMeaning(names, lines, bound, "w", i, AllSubterms(code), k);
      assert LineOf(lines, bound, "w", k);
      BoundSafe(code, bound[k], env);
      assert Unbound(bound[k], RunLines(lines[..k], i).Keys);
      ExpandSafe(bound[k], NamesOf(bound[..k], "w"), RunLines(lines[..k], i), env);
    }
    LinesMeaning(names, lines, bound, "w", i, AllSubterms(code), |lines|);
    assert lines[..|lines|] == lines && bound[..|lines|] == bound;
    forall k | 0 <= k < |code| ensures Safe(results[k], With(env, RunLines(lines, i))) {
      ArgSubterms(code, k);
      ShowSafe(code[k], names, RunLines(lines, i), env);
    }
  }

  lemma BoundSafe(code: seq<Term>, u: Term, env: Env)
    requires u in AllSubterms(code) && forall k :: 0 <= k < |code| ==> Safe(code[k], env)
    ensures Safe(u, env)
  {
    hide Safe;
    ArgOf(code, u);
    var k: nat :| k < |code| && u in Subterms(code[k]);
    SubtermSafe(code[k], u, env);
  }

  /** Running emitted code: the limbs it returns, every step exact. */
  ghost predicate Returns(lines: seq<Line>, results: seq<Term>, env: Env, limbs: seq<nat>) {
    Meanings(results, NatInterp(env), RunLines(lines, NatInterp(env))) == limbs && Exact(lines, results, env)
  }

  lemma EmittedReturns(code: seq<Term>, names: map<Term, string>, lines: seq<Line>, bound: seq<Term>,
                       results: seq<Term>, env: Env, limbs: seq<nat>)
    requires Emitted(code, names, lines, bound, results, "w") && AllClean(code, "w")
    requires Denote(code, env, limbs)
    ensures Returns(lines, results, env, limbs)
  {
    hide Emitted, Meaning, RunLines, AllClean, Safe, Eval, NatInterp, Exact;
    AllCleanFresh(code, "w");
    EmittedMeaning(code, names, lines, bound, results, "w", NatInterp(env));
    forall k | 0 <= k < |code| ensures Meaning(code[k], NatInterp(env), map[]) == limbs[k] && Safe(code[k], env) {
      MeaningIsEval(code[k], env);
      assert Denotes(code[k], env, limbs[k]);
    }
    EmittedExact(code, names, lines, bound, results, env);
  }

  lemma Inputs(env: Env)
    requires env("R") == L.R
    ensures Clean(V("R"), "w") && Clean(V("k"), "w") && AllClean(Vars("a"), "w") && AllClean(Vars("b"), "w")
    ensures Denotes(V("R"), env, L.R)
    ensures L.Ok(Values("a", env)) ==> Denote(Vars("a"), env, Values("a", env))
    ensures L.Ok(Values("b", env)) ==> Denote(Vars("b"), env, Values("b", env))
  {
    VarClean("R", "w"); VarClean("k", "w"); VarClean("a", "w"); VarClean("b", "w");
  }

  lemma EmittedAdd(names: map<Term, string>, lines: seq<Line>, bound: seq<Term>, results: seq<Term>, env: Env)
    requires Emitted(AddCode(V("R"), Vars("a"), Vars("b")), names, lines, bound, results, "w")
    requires env("R") == L.R && L.Ok(Values("a", env)) && L.Ok(Values("b", env))
    ensures var a, b := Values("a", env), Values("b", env);
            var r := Meanings(results, NatInterp(env), RunLines(lines, NatInterp(env)));
            Exact(lines, results, env) && L.Ok(r) && L.Same(L.Lv(r), L.Lv(a) + L.Lv(b))
  {
    hide Emitted, Clean, Denotes, Addl, Pc, Vars, Values, Meaning, RunLines, Exact, L.Ok, L.Same;
    var R, xs, ys, a, b := V("R"), Vars("a"), Vars("b"), Values("a", env), Values("b", env);
    Inputs(env);
    AddlClean(xs, ys, "w"); AddlLength(xs, ys);
    PcClean(R, Addl(xs, ys), "w");
    AddCodeCorrect(R, xs, ys, env, a, b);
    EmittedReturns(AddCode(R, xs, ys), names, lines, bound, results, env, L.FeAdd(a, b));
  }

  lemma EmittedSub(names: map<Term, string>, lines: seq<Line>, bound: seq<Term>, results: seq<Term>, env: Env)
    requires Emitted(SubCode(V("R"), Vars("a"), Vars("b")), names, lines, bound, results, "w")
    requires env("R") == L.R && L.Ok(Values("a", env)) && L.Ok(Values("b", env))
    ensures var a, b := Values("a", env), Values("b", env);
            var r := Meanings(results, NatInterp(env), RunLines(lines, NatInterp(env)));
            Exact(lines, results, env) && L.Ok(r) && L.Same(L.Lv(r), L.Lv(a) - L.Lv(b))
  {
    hide Emitted, Denotes, Pc, Vars, Values, Meaning, RunLines, Exact, L.Ok, L.Same;
    var R, xs, ys, a, b := V("R"), Vars("a"), Vars("b"), Values("a", env), Values("b", env);
    Inputs(env);
    SubLClean(R, xs, ys, "w");
    PcClean(R, SubL(xs, ys, Kp8(R)), "w");
    SubCodeCorrect(R, xs, ys, env, a, b);
    EmittedReturns(SubCode(R, xs, ys), names, lines, bound, results, env, L.FeSub(a, b));
  }

  lemma EmittedMul(names: map<Term, string>, lines: seq<Line>, bound: seq<Term>, results: seq<Term>, env: Env)
    requires Emitted(MulCode(V("R"), Vars("a"), Vars("b")), names, lines, bound, results, "w")
    requires env("R") == L.R && L.Ok(Values("a", env)) && L.Ok(Values("b", env))
    ensures var a, b := Values("a", env), Values("b", env);
            var r := Meanings(results, NatInterp(env), RunLines(lines, NatInterp(env)));
            Exact(lines, results, env) && L.Ok(r) && L.Same(L.Lv(r), L.Lv(a) * L.Lv(b))
  {
    hide Emitted, Clean, Denotes, ConvP, Fold, Pass, Vars, Values, Meaning, RunLines, Exact, L.Ok, L.Same;
    var R, xs, ys, a, b := V("R"), Vars("a"), Vars("b"), Values("a", env), Values("b", env);
    Inputs(env);
    ConvLength(xs, ys);
    ConvPClean(xs, ys, "w");
    FoldClean(ConvP(xs, ys), "w");
    PassClean(R, Fold(ConvP(xs, ys)), "w");
    MulCodeCorrect(R, xs, ys, env, a, b);
    EmittedReturns(MulCode(R, xs, ys), names, lines, bound, results, env, L.FeMul(a, b));
  }

  /** The emitted square has limb for limb the value of the emitted product of a with itself. */
  lemma EmittedSq(names: map<Term, string>, lines: seq<Line>, bound: seq<Term>, results: seq<Term>, env: Env)
    requires Emitted(SqCode(V("R"), Vars("a")), names, lines, bound, results, "w")
    requires env("R") == L.R && L.Ok(Values("a", env))
    ensures var a := Values("a", env);
            var r := Meanings(results, NatInterp(env), RunLines(lines, NatInterp(env)));
            Exact(lines, results, env) && r == L.FeMul(a, a) && L.Ok(r) && L.Same(L.Lv(r), L.Lv(a) * L.Lv(a))
  {
    hide Emitted, Clean, Denotes, SqP, Fold, Pass, Vars, Values, Meaning, RunLines, Exact, L.Ok, L.Same;
    var R, xs, a := V("R"), Vars("a"), Values("a", env);
    Inputs(env);
    SqLength(xs);
    SqPClean(xs, "w");
    FoldClean(SqP(xs), "w");
    PassClean(R, Fold(SqP(xs)), "w");
    SqCodeCorrect(R, xs, env, a);
    L.FeMulValue(a, a);
    EmittedReturns(SqCode(R, xs), names, lines, bound, results, env, L.FeMul(a, a));
  }

  lemma EmittedMulSmall(names: map<Term, string>, lines: seq<Line>, bound: seq<Term>, results: seq<Term>, env: Env)
    requires Emitted(MulSmallCode(V("R"), Vars("a"), V("k")), names, lines, bound, results, "w")
    requires env("R") == L.R && L.Ok(Values("a", env)) && env("k") < L.R
    ensures var a := Values("a", env);
            var r := Meanings(results, NatInterp(env), RunLines(lines, NatInterp(env)));
            Exact(lines, results, env) && L.Ok(r) && L.Same(L.Lv(r), L.Lv(a) * env("k"))
  {
    hide Emitted, Denotes, Pc, Vars, Values, Meaning, RunLines, Exact, L.Ok, L.Same;
    var R, xs, a, k := V("R"), Vars("a"), Values("a", env), env("k");
    Inputs(env);
    assert Denotes(V("k"), env, k) by { VarDenotes("k", env); }
    PcClean(R, ScalR(xs, V("k")), "w");
    PcClean(R, Pc(R, ScalR(xs, V("k"))), "w");
    MulSmallCodeCorrect(R, xs, V("k"), env, a, k);
    EmittedReturns(MulSmallCode(R, xs, V("k")), names, lines, bound, results, env, L.FeMulSmall(a, k));
  }

  lemma VarDenotes(x: string, env: Env)
    requires env(x) < LIMIT
    ensures Denotes(V(x), env, env(x))
  {}

  // ---- the emitted scalar step ----

  lemma {:induction false} SubbClean(R: Term, xs: seq<Term>, ys: seq<Term>, b: Term, pre: string)
    requires Clean(R, pre) && AllClean(xs, pre) && AllClean(ys, pre) && Clean(b, pre)
    ensures AllClean(S.Subb(R, xs, ys, b).0, pre) && Clean(S.Subb(R, xs, ys, b).1, pre)
    decreases |xs|
  {
    hide Clean;
    if xs != [] && ys != [] {
      var p, q := Bin(NatAdd, xs[0], R), Bin(NatAdd, ys[0], b);
      BinClean(NatAdd, xs[0], R, pre); BinClean(NatAdd, ys[0], b, pre); BinClean(NatSub, p, q, pre);
      var d := Bin(NatSub, p, q);
      LitClean(1, pre);
      BinClean(NatMod, d, R, pre); BinClean(NatDiv, d, R, pre); BinClean(NatSub, Lit(1), Bin(NatDiv, d, R), pre);
      SubbClean(R, xs[1..], ys[1..], Bin(NatSub, Lit(1), Bin(NatDiv, d, R)), pre);
    }
  }

  lemma SelClean(s: Term, xs: seq<Term>, ys: seq<Term>, pre: string)
    requires |xs| == |ys| && Clean(s, pre) && AllClean(xs, pre) && AllClean(ys, pre)
    ensures AllClean(S.Sel(s, xs, ys), pre)
  {
    hide Clean;
    LitClean(1, pre);
    var n := Bin(NatSub, Lit(1), s);
    BinClean(NatSub, Lit(1), s, pre);
    forall i | 0 <= i < |xs| ensures Clean(S.Sel(s, xs, ys)[i], pre) {
      BinClean(NatMul, xs[i], n, pre); BinClean(NatMul, ys[i], s, pre);
      BinClean(NatAdd, Bin(NatMul, xs[i], n), Bin(NatMul, ys[i], s), pre);
    }
  }

  lemma EstimateClean(R: Term, acc: seq<Term>, pre: string)
    requires |acc| == L.N && Clean(R, pre) && AllClean(acc, pre)
    ensures Clean(S.Estimate(R, acc), pre)
  {
    hide Clean;
    LitClean(8, pre); LitClean(1, pre);
    var x, q := Bin(NatAdd, acc[13], Bin(NatMul, acc[14], R)), Bin(NatDiv, R, Lit(8));
    BinClean(NatMul, acc[14], R, pre); BinClean(NatAdd, acc[13], Bin(NatMul, acc[14], R), pre);
    BinClean(NatDiv, R, Lit(8), pre); BinClean(NatDiv, x, q, pre);
    BinClean(NatSub, Bin(NatDiv, x, q), Lit(1), pre);
  }

  lemma StepClean(R: Term, l: seq<Term>, acc: seq<Term>, d: Term, pre: string)
    requires |l| == |acc| == L.N && Clean(R, pre) && AllClean(l, pre) && AllClean(acc, pre) && Clean(d, pre)
    ensures AllClean(S.Step(R, l, acc, d), pre)
  {
    hide Clean, S.Subb, S.Sel, S.Estimate, Carry;
    EstimateClean(R, acc, pre); LitClean(0, pre);
    var e := S.Estimate(R, acc);
    var m := S.Scal(e, l);
    forall i | 0 <= i < |l| ensures Clean(m[i], pre) { BinClean(NatMul, e, l[i], pre); }
    CarryClean(R, m, Lit(0), pre);
    var (ml, mo) := Carry(R, m, Lit(0));
    SubbClean(R, [d] + acc, ml + [mo], Lit(0), pre);
    var u := S.Subb(R, [d] + acc, ml + [mo], Lit(0)).0;
    SubbClean(R, u, l + [Lit(0)], Lit(0), pre);
    var (w, wo) := S.Subb(R, u, l + [Lit(0)], Lit(0));
    SelClean(wo, w, u, pre);
  }

  lemma VarsDenote(name: string, env: Env)
    requires Below(Values(name, env), L.R)
    ensures Denote(Vars(name), env, Values(name, env))
  {}

  /** The emitted step, run on L, a scalar below it and a 17-bit digit, returns (d + 2^17 a) mod L. */
  lemma EmittedStep(names: map<Term, string>, lines: seq<Line>, bound: seq<Term>, results: seq<Term>, env: Env)
    requires Emitted(S.Step(V("R"), Vars("l"), Vars("a"), V("d")), names, lines, bound, results, "w")
    requires env("R") == L.R && env("d") < L.R
    requires Below(Values("l", env), L.R) && L.Lv(Values("l", env)) == S.Order()
    requires Below(Values("a", env), L.R) && L.Lv(Values("a", env)) < S.Order()
    ensures var r := Meanings(results, NatInterp(env), RunLines(lines, NatInterp(env)));
            && Exact(lines, results, env) && |r| == L.N && Below(r, L.R)
            && L.Lv(r) == (env("d") + L.R * L.Lv(Values("a", env))) % S.Order()
  {
    hide Emitted, Clean, Denotes, S.Step, S.Order, Vars, Values, Meaning, RunLines, Exact, Below, L.Lv;
    var l, a := Values("l", env), Values("a", env);
    VarClean("R", "w"); VarClean("d", "w"); VarClean("l", "w"); VarClean("a", "w");
    VarDenotes("R", env); VarDenotes("d", env); VarsDenote("l", env); VarsDenote("a", env);
    StepClean(V("R"), Vars("l"), Vars("a"), V("d"), "w");
    S.StepCorrect(V("R"), Vars("l"), Vars("a"), V("d"), env, l, a, env("d"));
    EmittedReturns(S.Step(V("R"), Vars("l"), Vars("a"), V("d")), names, lines, bound, results, env,
                   S.StepN(l, a, env("d")));
  }
}
