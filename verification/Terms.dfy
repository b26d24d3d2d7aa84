/** The term language of the code generators (tools/gen_fe.py:23-34): variables, literals and
    operators of Bend's Nat (one machine word below 2^48) and U32 (wrapping at 2^32). */
module Terms {
  import opened Arith

  datatype Head = NatAdd | NatSub | NatMul | NatDiv | NatMod | ToNat | FromNat | U32Mul | U32And | U32Shrn

  datatype Term = V(name: string) | Lit(value: nat) | Op(head: Head, args: seq<Term>)

  type Env = string -> nat

  const WORD: nat := 0x1_0000_0000
  /** The native backend keeps a Nat below this in one machine word. */
  const LIMIT: nat := 0x1_0000_0000_0000

  /** Bitwise and. */
  function And(a: nat, b: nat): nat
    decreases a
  {
    if a == 0 then 0 else 2 * And(a / 2, b / 2) + (if a % 2 == 1 && b % 2 == 1 then 1 else 0)
  }

  /** One operator on values. */
  function Apply(h: Head, vs: seq<nat>): nat {
    if |vs| == 1 then
      match h
      case FromNat => vs[0] % WORD
      case _ => vs[0]
    else if |vs| == 2 then
      var a, b := vs[0], vs[1];
      match h
      case NatAdd => a + b
      case NatSub => if b <= a then a - b else 0
      case NatMul => a * b
      case NatDiv => if b == 0 then 0 else a / b
      case NatMod => if b == 0 then a else a % b
      case U32Mul => (a * b) % WORD
      case U32And => And(a, b)
      case U32Shrn => Shr(a, b)
      case _ => 0
    else 0
  }

  /** The operators on numbers; U32 results are taken modulo 2^32. */
  lemma ApplyIs(a: nat, b: nat)
    ensures Apply(NatAdd, [a, b]) == a + b && Apply(NatMul, [a, b]) == a * b
    ensures Apply(NatSub, [a, b]) == if b <= a then a - b else 0
    ensures b > 0 ==> Apply(NatDiv, [a, b]) == a / b && Apply(NatMod, [a, b]) == a % b
    ensures Apply(U32Mul, [a, b]) == (a * b) % 0x1_0000_0000
    ensures Apply(U32And, [a, b]) == And(a, b) && Apply(U32Shrn, [a, b]) == a / Pow2(b)
    ensures Apply(ToNat, [a]) == a && Apply(FromNat, [a]) == a % 0x1_0000_0000
  {
    hide Pow2, And;
  }

  /** The operator neither wraps, truncates, divides by zero nor leaves its machine word (Nat.sub is
      defined to stop at zero). */
  predicate Fits(h: Head, vs: seq<nat>) {
    if |vs| == 1 then
      (h == ToNat || h == FromNat) && vs[0] < WORD
    else if |vs| == 2 then
      var a, b := vs[0], vs[1];
      match h
      case NatAdd => a + b < LIMIT
      case NatSub => true
      case NatMul => a * b < LIMIT
      case NatDiv => b > 0
      case NatMod => b > 0
      case U32Mul => a < WORD && b < WORD && a * b < WORD
      case U32And => a < WORD && b < WORD
      case U32Shrn => a < WORD && b < 32
      case _ => false
    else false
  }

  function Evals(ts: seq<Term>, env: Env): (vs: seq<nat>)
    ensures |vs| == |ts|
    ensures forall i :: 0 <= i < |ts| ==> vs[i] == Eval(ts[i], env)
    decreases ts
  {
    seq(|ts|, i requires 0 <= i < |ts| => Eval(ts[i], env))
  }

  function Eval(t: Term, env: Env): nat
    decreases t
  {
    match t
    case V(x) => env(x)
    case Lit(n) => n
    case Op(h, args) => Apply(h, Evals(args, env))
  }

  /** Every subterm stays exact and, being a Nat or a U32, below 2^48. */
  ghost predicate Safe(t: Term, env: Env)
    decreases t
  {
    && Eval(t, env) < LIMIT
    && (t.Op? ==>
          && Fits(t.head, Evals(t.args, env))
          && forall i :: 0 <= i < |t.args| ==> Safe(t.args[i], env))
  }

  ghost predicate Denotes(t: Term, env: Env, v: nat) {
    Safe(t, env) && Eval(t, env) == v
  }

  ghost predicate Denote(ts: seq<Term>, env: Env, vs: seq<nat>) {
    |ts| == |vs| && forall i :: 0 <= i < |ts| ==> Denotes(ts[i], env, vs[i])
  }

  lemma Denotes1(h: Head, a: Term, env: Env, x: nat)
    requires Denotes(a, env, x) && Fits(h, [x])
    ensures Denotes(Op(h, [a]), env, x)
  {
    assert Evals([a], env) == [x];
    if h == FromNat { ModSmall(x, WORD); }
  }

  lemma Denotes2(h: Head, a: Term, b: Term, env: Env, x: nat, y: nat)
    requires Denotes(a, env, x) && Denotes(b, env, y) && Fits(h, [x, y])
    ensures Denotes(Op(h, [a, b]), env, Apply(h, [x, y]))
  {
    assert Evals([a, b], env) == [x, y];
    ApplyBelow(h, x, y);
  }

  lemma ApplyBelow(h: Head, x: nat, y: nat)
    requires Fits(h, [x, y]) && x < LIMIT
    ensures Apply(h, [x, y]) < LIMIT
  {
    match h
    case NatDiv => DivSmaller(x, y);
    case NatMod => DivMod(x, y); MulMono(0, x / y, y);
    case U32And => AndBelow(x, y);
    case U32Shrn => DivSmaller(x, Pow2(y));
    case _ =>
  }

  lemma DivSmaller(x: nat, y: nat)
    requires y > 0
    ensures 0 <= x / y <= x
  {
    DivMod(x, y);
    MulMono(1, y, x / y);
  }

  lemma {:induction false} AndBelow(a: nat, b: nat)
    ensures And(a, b) <= a
  {
    if a > 0 { AndBelow(a / 2, b / 2); }
  }

  /** Masking with 2^k - 1 keeps the low k bits. */
  lemma {:induction false} AndMask(a: nat, k: nat)
    ensures And(a, Pow2(k) - 1) == a % Pow2(k)
    decreases k
  {
    if a == 0 {
      ModSmall(0, Pow2(k));
    } else if k == 0 {
      AndZero(a);
    } else {
      AndMask(a / 2, k - 1);
      DivDiv(a, 2, Pow2(k - 1));
      assert (Pow2(k) - 1) / 2 == Pow2(k - 1) - 1;
    }
  }

  /** Bit i of the result is set when both are. */
  lemma {:induction false} AndBit(a: nat, b: nat, i: nat)
    ensures (And(a, b) / Pow2(i)) % 2 == 1 <==> (a / Pow2(i)) % 2 == 1 && (b / Pow2(i)) % 2 == 1
    decreases i
  {
    hide Pow2, And;
    AndHalves(a, b);
    if i == 0 {
      assert Pow2(0) == 1 by { One(); }
    } else {
      HalfShift(And(a, b), i - 1); HalfShift(a, i - 1); HalfShift(b, i - 1);
      AndBit(a / 2, b / 2, i - 1);
    }
  }

  lemma AndHalves(a: nat, b: nat)
    ensures And(a, b) / 2 == And(a / 2, b / 2)
    ensures And(a, b) % 2 == 1 <==> a % 2 == 1 && b % 2 == 1
  {}

  lemma One()
    ensures Pow2(0) == 1
  {}

  lemma HalfShift(x: nat, i: nat)
    ensures x / Pow2(i + 1) == (x / 2) / Pow2(i)
  {
    hide Pow2;
    Pow2Succ(i);
    DivDiv(x, 2, Pow2(i));
  }

  lemma {:induction false} AndZero(a: nat)
    ensures And(a, 0) == 0
  {
    if a > 0 { AndZero(a / 2); }
  }
}
