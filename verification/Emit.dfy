/** The term compiler of tools/gen_fe.py:146-178: it counts the references to every distinct subterm,
    binds each operator subterm referenced more than once to a fresh name in a let line before its
    first use, and shows the outputs with names in place of the bound subterms. Terms are shown as
    terms in which a name is a variable. */
module Emit {
  import opened Terms

  // ---- meaning ----

  /** An interpretation of the variables, literals and operators in any domain. */
  datatype Interp<!D> = Interp(env: string -> D, lit: nat -> D, op: (Head, seq<D>) -> D)

  type Line = (string, Term)

  /** The value of a term where the names in lets are bound. */
  function Meaning<D>(t: Term, i: Interp<D>, lets: map<string, D>): D
    decreases t
  {
    match t
    case V(x) => if x in lets then lets[x] else i.env(x)
    case Lit(n) => i.lit(n)
    case Op(h, args) => i.op(h, Meanings(args, i, lets))
  }

  function Meanings<D>(ts: seq<Term>, i: Interp<D>, lets: map<string, D>): (r: seq<D>)
    ensures |r| == |ts|
    ensures forall k :: 0 <= k < |ts| ==> r[k] == Meaning(ts[k], i, lets)
    decreases ts
  {
    seq(|ts|, k requires 0 <= k < |ts| => Meaning(ts[k], i, lets))
  }

  /** Evaluating the let lines in order. */
  function RunLines<D>(lines: seq<Line>, i: Interp<D>): map<string, D>
    decreases |lines|
  {
    if lines == [] then map[] else
    var n := |lines| - 1;
    var lets := RunLines(lines[..n], i);
    lets[lines[n].0 := Meaning(lines[n].1, i, lets)]
  }

  // ---- names ----

  function Digit(d: nat): char
    requires d < 10
  {
    ['0', '1', '2', '3', '4', '5', '6', '7', '8', '9'][d]
  }

  function Decimal(n: nat): (s: string)
    ensures s != []
  {
    if n < 10 then [Digit(n)] else Decimal(n / 10) + [Digit(n % 10)]
  }

  lemma {:induction false} DecimalInjective(m: nat, n: nat)
    requires Decimal(m) == Decimal(n)
    ensures m == n
  {
    var a, b := Decimal(m), Decimal(n);
    assert a[|a| - 1] == Digit(m % 10) && b[|b| - 1] == Digit(n % 10);
    assert m % 10 == n % 10;
    if m >= 10 && n >= 10 {
      assert a[..|a| - 1] == Decimal(m / 10) && b[..|b| - 1] == Decimal(n / 10);
      DecimalInjective(m / 10, n / 10);
    }
  }

  /** Decimal digits, the most significant first. */
  lemma DecimalIs(n: nat, d: nat)
    requires d < 10
    ensures Decimal(d) == ["0123456789"[d]] && (n > 0 ==> Decimal(10 * n + d) == Decimal(n) + Decimal(d))
  {
    assert (10 * n + d) / 10 == n && (10 * n + d) % 10 == d;
  }

  /** The k-th let name. */
  function Name(pre: string, k: nat): string { pre + Decimal(k) }

  lemma NameInjective(pre: string, j: nat, k: nat)
    requires Name(pre, j) == Name(pre, k)
    ensures j == k
  {
    assert Name(pre, j)[|pre|..] == Decimal(j) && Name(pre, k)[|pre|..] == Decimal(k);
    DecimalInjective(j, k);
  }

  /** The names given when the terms in bound have been bound in order. */
  function NamesOf(bound: seq<Term>, pre: string): map<Term, string>
    decreases |bound|
  {
    if bound == [] then map[] else
    var n := |bound| - 1;
    NamesOf(bound[..n], pre)[bound[n] := Name(pre, n)]
  }

  /** The term as a line or result shows it: named subterms are variables. */
  function Show(t: Term, names: map<Term, string>): Term
    decreases t, 1
  {
    if t in names then V(names[t]) else Expand(t, names)
  }

  /** The same, with the term itself written out. */
  function Expand(t: Term, names: map<Term, string>): Term
    decreases t, 0
  {
    if t.Op? then
      Op(t.head, seq(|t.args|, k requires 0 <= k < |t.args| => Show(t.args[k], names)))
    else t
  }

  function ShowAll(ts: seq<Term>, names: map<Term, string>): (r: seq<Term>)
    ensures |r| == |ts|
    ensures forall k :: 0 <= k < |ts| ==> r[k] == Show(ts[k], names)
  {
    seq(|ts|, k requires 0 <= k < |ts| => Show(ts[k], names))
  }

  // ---- subterms and references ----

  function Size(t: Term): nat
    decreases t
  {
    if t.Op? then 1 + Sizes(t.args) else 1
  }

  function Sizes(ts: seq<Term>): (n: nat)
    ensures forall k :: 0 <= k < |ts| ==> Size(ts[k]) <= n
    decreases ts
  {
    if ts == [] then 0 else
    var n := |ts| - 1;
    Sizes(ts[..n]) + Size(ts[n])
  }

  function Subterms(t: Term): set<Term>
    decreases t
  {
    {t} + (if t.Op? then AllSubterms(t.args) else {})
  }

  function AllSubterms(ts: seq<Term>): set<Term>
    decreases ts
  {
    if ts == [] then {} else
    var n := |ts| - 1;
    AllSubterms(ts[..n]) + Subterms(ts[n])
  }

  function Get(m: map<Term, nat>, t: Term): nat { if t in m then m[t] else 0 }

  /** The counts after `count(t)`: the arguments are counted on the first reference only. */
  function Tally(t: Term, m: map<Term, nat>): map<Term, nat>
    decreases t
  {
    var m1 := m[t := Get(m, t) + 1];
    if t.Op? && t !in m then TallyAll(t.args, m1) else m1
  }

  function TallyAll(ts: seq<Term>, m: map<Term, nat>): map<Term, nat>
    decreases ts
  {
    if ts == [] then m else
    var n := |ts| - 1;
    Tally(ts[n], TallyAll(ts[..n], m))
  }

  /** The operator terms written out when t is shown, with multiplicity. */
  function Written(t: Term, names: map<Term, string>): multiset<Term>
    decreases t
  {
    if !t.Op? || t in names then multiset{} else multiset{t} + AllWritten(t.args, names)
  }

  function AllWritten(ts: seq<Term>, names: map<Term, string>): multiset<Term>
    decreases ts
  {
    if ts == [] then multiset{} else
    var n := |ts| - 1;
    AllWritten(ts[..n], names) + Written(ts[n], names)
  }

  /** The operator terms written out in the let lines. */
  function LinesWritten(bound: seq<Term>, pre: string): multiset<Term>
    decreases |bound|
  {
    if bound == [] then multiset{} else
    var n := |bound| - 1;
    LinesWritten(bound[..n], pre) + Written(bound[n], NamesOf(bound[..n], pre))
  }

  function Ops(m: map<Term, nat>): set<Term> { set t | t in m && t.Op? }

  // ---- facts about counting ----

  predicate Within(m: map<Term, nat>, n: map<Term, nat>) {
    forall t :: t in m ==> t in n && m[t] <= n[t]
  }

  lemma WithinTrans(a: map<Term, nat>, b: map<Term, nat>, c: map<Term, nat>)
    requires Within(a, b) && Within(b, c)
    ensures Within(a, c)
  {}

  predicate Positive(m: map<Term, nat>) {
    forall t :: t in m ==> m[t] > 0
  }

  lemma {:induction false} TallyGrows(t: Term, m: map<Term, nat>)
    ensures Within(m, Tally(t, m)) && (Positive(m) ==> Positive(Tally(t, m)))
    ensures t in Tally(t, m)
    decreases t
  {
    var m1 := m[t := Get(m, t) + 1];
    if t.Op? && t !in m {
      TallyAllGrows(t.args, m1);
    }
  }

  lemma {:induction false} TallyAllGrows(ts: seq<Term>, m: map<Term, nat>)
    ensures Within(m, TallyAll(ts, m)) && (Positive(m) ==> Positive(TallyAll(ts, m)))
    decreases ts
  {
    if ts != [] {
      var n := |ts| - 1;
      TallyAllGrows(ts[..n], m);
      TallyGrows(ts[n], TallyAll(ts[..n], m));
    }
  }

  /** Counting a prefix counts no more than counting the whole. */
  lemma {:induction false} TallyPrefix(ts: seq<Term>, k: nat, m: map<Term, nat>)
    requires k <= |ts|
    ensures Within(TallyAll(ts[..k], m), TallyAll(ts, m))
    decreases |ts|
  {
    var n := |ts| - 1;
    if k == |ts| {
      assert ts[..k] == ts;
    } else {
      TallyPrefix(ts[..n], k, m);
      assert ts[..n][..k] == ts[..k];
      TallyGrows(ts[n], TallyAll(ts[..n], m));
      WithinTrans(TallyAll(ts[..k], m), TallyAll(ts[..n], m), TallyAll(ts, m));
    }
  }

  lemma {:induction false} SubtermsClosed(t: Term, u: Term)
    requires u in Subterms(t)
    ensures Subterms(u) <= Subterms(t) && Size(u) <= Size(t)
    decreases t
  {
    if u != t { AllSubtermsClosed(t.args, u); }
  }

  lemma {:induction false} AllSubtermsClosed(ts: seq<Term>, u: Term)
    requires u in AllSubterms(ts)
    ensures Subterms(u) <= AllSubterms(ts) && Size(u) <= Sizes(ts)
    decreases ts
  {
    var n := |ts| - 1;
    if u in Subterms(ts[n]) { SubtermsClosed(ts[n], u); } else { AllSubtermsClosed(ts[..n], u); }
  }

  /** Every counted term no larger than b has its subterms counted. */
  predicate Closed(m: map<Term, nat>, b: nat) {
    forall u :: u in m && Size(u) <= b ==> Subterms(u) <= m.Keys
  }

  /** Counting reaches exactly the subterms. */
  lemma {:induction false} TallyReaches(t: Term, m: map<Term, nat>)
    requires Closed(m, Size(t))
    ensures Tally(t, m).Keys == m.Keys + Subterms(t)
    decreases t
  {
    var m1 := m[t := Get(m, t) + 1];
    if t.Op? && t !in m {
      assert Closed(m1, Sizes(t.args));
      TallyAllReaches(t.args, m1);
    }
  }

  lemma {:induction false} TallyAllReaches(ts: seq<Term>, m: map<Term, nat>)
    requires Closed(m, Sizes(ts))
    ensures TallyAll(ts, m).Keys == m.Keys + AllSubterms(ts)
    decreases ts
  {
    if ts != [] {
      var n := |ts| - 1;
      assert Closed(m, Sizes(ts[..n]));
      TallyAllReaches(ts[..n], m);
      var m1 := TallyAll(ts[..n], m);
      forall u | u in m1 && Size(u) <= Size(ts[n]) ensures Subterms(u) <= m1.Keys {
        if u !in m { AllSubtermsClosed(ts[..n], u); }
      }
      TallyReaches(ts[n], m1);
    }
  }

  // ---- the counts are those of references ----

  /** The terms that t refers to, with multiplicity. */
  function Refs(t: Term): multiset<Term> { if t.Op? then multiset(t.args) else multiset{} }

  /** What the distinct terms of s refer to, each counted once. */
  ghost function AllRefs(s: set<Term>): multiset<Term> {
    if s == {} then multiset{} else
    var t :| t in s;
    Refs(t) + AllRefs(s - {t})
  }

  lemma {:induction false} AllRefsIs(s: set<Term>, t: Term)
    ensures AllRefs({}) == multiset{}
    ensures t in s ==> AllRefs(s) == Refs(t) + AllRefs(s - {t})
    decreases s
  {
    hide Refs;
    if t in s {
      var p :| p in s && AllRefs(s) == Refs(p) + AllRefs(s - {p});
      if p != t {
        AllRefsIs(s - {p}, t);
        AllRefsIs(s - {t}, p);
        assert s - {p} - {t} == s - {t} - {p};
      }
    }
  }

  lemma {:induction false} AllRefsUnion(a: set<Term>, b: set<Term>)
    requires a !! b
    ensures AllRefs(a + b) == AllRefs(a) + AllRefs(b)
    decreases a
  {
    hide Refs;
    if a == {} {
      AllRefsIs({}, Lit(0));
      assert a + b == b;
    } else {
      var t :| t in a;
      AllRefsIs(a, t); AllRefsIs(a + b, t);
      AllRefsUnion(a - {t}, b);
      assert a + b - {t} == (a - {t}) + b;
    }
  }

  lemma {:induction false} TallyKeys(t: Term, m: map<Term, nat>)
    ensures m.Keys <= Tally(t, m).Keys && t in Tally(t, m)
    decreases t
  {
    if t.Op? && t !in m { TallyAllKeys(t.args, m[t := Get(m, t) + 1]); }
  }

  lemma {:induction false} TallyAllKeys(ts: seq<Term>, m: map<Term, nat>)
    ensures m.Keys <= TallyAll(ts, m).Keys
    decreases ts
  {
    if ts != [] {
      TallyAllKeys(ts[..|ts| - 1], m);
      TallyKeys(ts[|ts| - 1], TallyAll(ts[..|ts| - 1], m));
    }
  }

  lemma CountedOnce(m: map<Term, nat>, t: Term, u: Term)
    ensures Get(m[t := Get(m, t) + 1], u) == Get(m, u) + multiset{t}[u]
  {}

  lemma OneRefs(t: Term)
    ensures AllRefs({}) == multiset{} && AllRefs({t}) == Refs(t)
  {
    AllRefsIs({t}, t);
    assert {t} - {t} == {};
  }

  lemma {:induction false} TallyRefs(t: Term, m: map<Term, nat>, u: Term)
    ensures Get(Tally(t, m), u) == Get(m, u) + multiset{t}[u] + AllRefs(Tally(t, m).Keys - m.Keys)[u]
    decreases t
  {
    hide AllRefs, TallyAll, Get;
    OneRefs(t);
    CountedOnce(m, t, u);
    var m1, m' := m[t := Get(m, t) + 1], Tally(t, m);
    if t.Op? && t !in m {
      TallyAllRefs(t.args, m1, u);
      TallyAllKeys(t.args, m1);
      AllRefsUnion({t}, m'.Keys - m1.Keys);
      assert m'.Keys - m.Keys == {t} + (m'.Keys - m1.Keys);
    } else {
      assert m'.Keys - m.Keys == if t in m then {} else {t};
    }
  }

  lemma {:induction false} TallyAllRefs(ts: seq<Term>, m: map<Term, nat>, u: Term)
    ensures Get(TallyAll(ts, m), u) == Get(m, u) + multiset(ts)[u] + AllRefs(TallyAll(ts, m).Keys - m.Keys)[u]
    decreases ts
  {
    hide AllRefs;
    if ts == [] {
      AllRefsIs({}, u);
      assert m.Keys - m.Keys == {};
    } else {
      var n := |ts| - 1;
      var m1, m' := TallyAll(ts[..n], m), TallyAll(ts, m);
      TallyAllRefs(ts[..n], m, u); TallyRefs(ts[n], m1, u);
      TallyAllKeys(ts[..n], m); TallyKeys(ts[n], m1);
      AllRefsUnion(m1.Keys - m.Keys, m'.Keys - m1.Keys);
      assert m'.Keys - m.Keys == (m1.Keys - m.Keys) + (m'.Keys - m1.Keys);
      assert ts == ts[..n] + [ts[n]];
      assert multiset(ts) == multiset(ts[..n]) + multiset{ts[n]};
    }
  }

  /** The count of a term is how often the outputs and their distinct subterms refer to it. */
  lemma CountsAreReferences(outs: seq<Term>, u: Term)
    ensures Get(TallyAll(outs, map[]), u) == multiset(outs)[u] + AllRefs(AllSubterms(outs))[u]
  {
    hide AllRefs;
    var m: map<Term, nat> := map[];
    TallyAllRefs(outs, m, u);
    TallyAllReaches(outs, m);
    assert TallyAll(outs, m).Keys - m.Keys == AllSubterms(outs);
  }

  // ---- what the visit keeps ----

  /** The lines bind distinct operator terms to the names, in order, each shown with the earlier names. */
  predicate Bound(names: map<Term, string>, lines: seq<Line>, bound: seq<Term>, pre: string) {
    && names == NamesOf(bound, pre)
    && |lines| == |bound|
    && (forall k :: 0 <= k < |bound| ==> bound[k].Op?)
    && (forall k :: 0 <= k < |bound| ==> LineOf(lines, bound, pre, k))
    && (forall j, k :: 0 <= j < k < |bound| ==> bound[j] != bound[k])
  }

  predicate LineOf(lines: seq<Line>, bound: seq<Term>, pre: string, k: nat)
    requires k < |bound|
  {
    k < |lines| && lines[k] == (Name(pre, k), Expand(bound[k], NamesOf(bound[..k], pre)))
  }

  /** A term visited before is named, or is referenced only once, or is still being visited. */
  predicate Done(cnt: map<Term, nat>, seen: map<Term, nat>, names: map<Term, string>, active: set<Term>) {
    && (forall u :: u in seen ==> u in cnt && 0 < seen[u] <= cnt[u])
    && (forall u :: u in names ==> u in seen && cnt[u] > 1)
    && (forall u :: u in seen && u.Op? ==> u in names || cnt[u] == 1 || u in active)
  }

  predicate Singles(ts: multiset<Term>, cnt: map<Term, nat>) {
    forall u :: u in ts ==> u in cnt && cnt[u] == 1
  }

  lemma {:induction false} NamesKeys(bound: seq<Term>, pre: string)
    ensures forall u :: u in NamesOf(bound, pre) <==> u in bound
    decreases |bound|
  {
    if bound != [] {
      var n := |bound| - 1;
      NamesKeys(bound[..n], pre);
      assert bound == bound[..n] + [bound[n]];
    }
  }

  lemma {:induction false} NamesSize(bound: seq<Term>, pre: string)
    requires forall j, k :: 0 <= j < k < |bound| ==> bound[j] != bound[k]
    ensures |NamesOf(bound, pre)| == |bound|
    decreases |bound|
  {
    if bound != [] {
      var n := |bound| - 1;
      NamesSize(bound[..n], pre);
      NamesKeys(bound[..n], pre);
      assert NamesOf(bound, pre).Keys == NamesOf(bound[..n], pre).Keys + {bound[n]};
    }
  }

  lemma BindOne(names: map<Term, string>, lines: seq<Line>, bound: seq<Term>, pre: string, t: Term)
    requires Bound(names, lines, bound, pre) && t.Op? && t !in names
    ensures var k := |bound|;
            Bound(names[t := Name(pre, k)], lines + [(Name(pre, k), Expand(t, names))], bound + [t], pre)
    ensures LinesWritten(bound + [t], pre) == LinesWritten(bound, pre) + Written(t, names)
  {
    NamesKeys(bound, pre);
    var k, b := |bound|, bound + [t];
    assert b[..k] == bound;
    var l := lines + [(Name(pre, k), Expand(t, names))];
    forall j | 0 <= j < |b| ensures LineOf(l, b, pre, j) {
      if j < k { assert b[..j] == bound[..j] && LineOf(lines, bound, pre, j); }
    }
  }

  /** Terms written out stay so while only other terms are named. */
  lemma {:induction false} WrittenStable(t: Term, a: map<Term, string>, b: map<Term, string>)
    requires a.Keys <= b.Keys && forall u :: u in Written(t, a) ==> u !in b
    ensures Written(t, b) == Written(t, a)
    decreases t
  {
    if t.Op? && t !in a {
      assert t in Written(t, a);
      AllWrittenStable(t.args, a, b);
    }
  }

  lemma {:induction false} AllWrittenStable(ts: seq<Term>, a: map<Term, string>, b: map<Term, string>)
    requires a.Keys <= b.Keys && forall u :: u in AllWritten(ts, a) ==> u !in b
    ensures AllWritten(ts, b) == AllWritten(ts, a)
    decreases ts
  {
    if ts != [] {
      var n := |ts| - 1;
      AllWrittenStable(ts[..n], a, b);
      WrittenStable(ts[n], a, b);
    }
  }

  lemma AllWrittenSnoc(ts: seq<Term>, k: nat, names: map<Term, string>)
    requires k < |ts|
    ensures AllWritten(ts[..k + 1], names) == AllWritten(ts[..k], names) + Written(ts[k], names)
  {
    assert ts[..k + 1][..k] == ts[..k];
  }

  lemma TallySnoc(ts: seq<Term>, k: nat, m: map<Term, nat>)
    requires k < |ts|
    ensures TallyAll(ts[..k + 1], m) == Tally(ts[k], TallyAll(ts[..k], m))
  {
    assert ts[..k + 1][..k] == ts[..k];
  }

  lemma OpsAdd(m: map<Term, nat>, t: Term, c: nat)
    ensures Ops(m[t := c]) == Ops(m) + (if t.Op? then {t} else {})
  {}

  /** New names go to terms no larger than size. */
  predicate Extends(a: map<Term, string>, b: map<Term, string>, size: nat) {
    a.Keys <= b.Keys && forall u :: u in b && u !in a ==> Size(u) <= size
  }

  /** The terms reached since are those written out in the new lines and those pending. */
  predicate Paid(b0: seq<Term>, m0: map<Term, nat>, b1: seq<Term>, m1: map<Term, nat>, pending: multiset<Term>,
                 pre: string)
  {
    LinesWritten(b1, pre) + pending + multiset(Ops(m0)) == LinesWritten(b0, pre) + multiset(Ops(m1))
  }

  lemma PaidStep(b0: seq<Term>, m0: map<Term, nat>, b1: seq<Term>, m1: map<Term, nat>, b2: seq<Term>,
                 m2: map<Term, nat>, p: multiset<Term>, q: multiset<Term>, pre: string)
    requires Paid(b0, m0, b1, m1, p, pre) && Paid(b1, m1, b2, m2, q, pre)
    ensures Paid(b0, m0, b2, m2, p + q, pre)
  {
    hide LinesWritten;
    var x0, x1, x2 := LinesWritten(b0, pre), LinesWritten(b1, pre), LinesWritten(b2, pre);
    var y0, y1, y2 := multiset(Ops(m0)), multiset(Ops(m1)), multiset(Ops(m2));
    forall u ensures (x2 + (p + q) + y0)[u] == (x0 + y2)[u] {
      assert (x1 + p + y0)[u] == (x0 + y1)[u] && (x2 + q + y1)[u] == (x1 + y2)[u];
    }
  }

  lemma Returned(t: Term, cnt: map<Term, nat>, m: map<Term, nat>, names: map<Term, string>, active: set<Term>,
                 bound: seq<Term>, pre: string)
    requires Done(cnt, m, names, active) && Within(Tally(t, m), cnt) && (!t.Op? || t in names)
    ensures var m1 := m[t := Get(m, t) + 1];
            && m1 == Tally(t, m) && Done(cnt, m1, names, active) && Extends(names, names, Size(t))
            && Singles(Written(t, names), cnt) && Paid(bound, m, bound, m1, Written(t, names), pre)
  {
    var m1 := m[t := Get(m, t) + 1];
    assert Ops(m1) == Ops(m);
  }

  /** The first visit of an operator term: it has not been seen before. */
  lemma Entered(t: Term, cnt: map<Term, nat>, m: map<Term, nat>, names: map<Term, string>, active: set<Term>)
    requires Done(cnt, m, names, active) && Within(Tally(t, m), cnt) && t.Op? && t !in names && t !in active
    ensures var m1 := m[t := Get(m, t) + 1];
            && t !in m && t in cnt && t in TallyAll(t.args, m1) && Tally(t, m) == TallyAll(t.args, m1)
            && Done(cnt, m1, names, active + {t})
  {
    TallyAllGrows(t.args, m[t := Get(m, t) + 1]);
  }

  lemma Written1(t: Term, names: map<Term, string>, a: map<Term, string>)
    requires t.Op? && t !in a && Extends(a, names, Size(t) - 1)
    ensures t !in names && Written(t, names) == multiset{t} + AllWritten(t.args, names)
  {}

  lemma PaidOne(b: seq<Term>, m: map<Term, nat>, t: Term, b1: seq<Term>, m2: map<Term, nat>, names: map<Term, string>,
                pre: string)
    requires t.Op? && t !in m && Written(t, names) == multiset{t} + AllWritten(t.args, names)
    requires Paid(b, m[t := Get(m, t) + 1], b1, m2, AllWritten(t.args, names), pre)
    ensures Paid(b, m, b1, m2, Written(t, names), pre)
  {
    hide LinesWritten, Written, AllWritten;
    OpsAdd(m, t, Get(m, t) + 1);
    assert multiset(Ops(m) + {t}) == multiset(Ops(m)) + multiset{t};
  }

  lemma PaidBound(b: seq<Term>, m: map<Term, nat>, bound: seq<Term>, m2: map<Term, nat>, t: Term,
                  names: map<Term, string>, nm: string, pre: string)
    requires Paid(b, m, bound, m2, Written(t, names), pre)
    requires LinesWritten(bound + [t], pre) == LinesWritten(bound, pre) + Written(t, names)
    ensures Paid(b, m, bound + [t], m2, Written(t, names[t := nm]), pre)
  {}

  lemma Sized(names: map<Term, string>, lines: seq<Line>, bound: seq<Term>, pre: string)
    requires Bound(names, lines, bound, pre)
    ensures |names| == |bound|
  {
    NamesSize(bound, pre);
  }

  lemma Left(t: Term, cnt: map<Term, nat>, seen: map<Term, nat>, a: map<Term, string>, names: map<Term, string>,
             active: set<Term>, nm: string)
    requires Done(cnt, seen, names, active + {t}) && t in seen && t in cnt && cnt[t] > 1
    requires Extends(a, names, Size(t) - 1)
    ensures Done(cnt, seen, names[t := nm], active) && Extends(a, names[t := nm], Size(t))
    ensures Singles(Written(t, names[t := nm]), cnt)
  {}

  lemma LeftSingle(t: Term, cnt: map<Term, nat>, seen: map<Term, nat>, a: map<Term, string>,
                   names: map<Term, string>, active: set<Term>)
    requires t.Op? && Done(cnt, seen, names, active + {t}) && t in seen && t in cnt && cnt[t] <= 1
    requires Extends(a, names, Size(t) - 1) && Singles(AllWritten(t.args, names), cnt)
    requires Written(t, names) == multiset{t} + AllWritten(t.args, names)
    ensures Done(cnt, seen, names, active) && Extends(a, names, Size(t))
    ensures Singles(Written(t, names), cnt)
  {}

  lemma StartArgs(ts: seq<Term>, m: map<Term, nat>, a: map<Term, string>, b: seq<Term>, cnt: map<Term, nat>,
                  pre: string)
    ensures TallyAll(ts[..0], m) == m && forall size: nat :: Extends(a, a, size)
    ensures AllWritten(ts[..0], a) == multiset{} && Singles(multiset{}, cnt) && Paid(b, m, b, m, multiset{}, pre)
  {}

  /** One more argument: what was pending stays so. */
  lemma NextArg(ts: seq<Term>, k: nat, a0: map<Term, string>, a: map<Term, string>, b: map<Term, string>, size: nat,
                cnt: map<Term, nat>, seen: map<Term, nat>, active: set<Term>)
    requires k < |ts| && Size(ts[k]) <= size && Extends(a0, a, size) && Extends(a, b, Size(ts[k]))
    requires Done(cnt, seen, b, active)
    requires Singles(AllWritten(ts[..k], a), cnt) && Singles(Written(ts[k], b), cnt)
    ensures Extends(a0, b, size) && AllWritten(ts[..k], b) == AllWritten(ts[..k], a)
    ensures AllWritten(ts[..k + 1], b) == AllWritten(ts[..k], b) + Written(ts[k], b)
    ensures Singles(AllWritten(ts[..k + 1], b), cnt)
  {
    hide Written, AllWritten, Done, Size;
    SinglesUnnamed(AllWritten(ts[..k], a), cnt, seen, b, active);
    AllWrittenStable(ts[..k], a, b);
    AllWrittenSnoc(ts, k, b);
  }

  lemma SinglesUnnamed(ts: multiset<Term>, cnt: map<Term, nat>, seen: map<Term, nat>, names: map<Term, string>,
                       active: set<Term>)
    requires Done(cnt, seen, names, active) && Singles(ts, cnt)
    ensures forall u :: u in ts ==> u !in names
  {}

  class Emitter {
    const pre: string
    var cnt: map<Term, nat>
    var names: map<Term, string>
    var lines: seq<Line>
    /** The bound terms in the order of their lines, and the visits so far. */
    ghost var bound: seq<Term>
    ghost var seen: map<Term, nat>

    constructor (pre: string)
      ensures this.pre == pre && cnt == map[] && names == map[] && lines == []
      ensures bound == [] && seen == map[]
    {
      this.pre := pre;
      cnt, names, lines := map[], map[], [];
      bound, seen := [], map[];
    }

    /** gen_fe.py:158-162. */
    method Count(t: Term)
      requires Positive(cnt)
      modifies this`cnt
      ensures cnt == Tally(t, old(cnt)) && Positive(cnt)
      decreases t
    {
      cnt := cnt[t := (if t in cnt then cnt[t] else 0) + 1];
      if cnt[t] == 1 && t.Op? {
        ghost var m := cnt;
        var k := 0;
        while k < |t.args|
          invariant 0 <= k <= |t.args|
          invariant cnt == TallyAll(t.args[..k], m) && Positive(cnt)
        {
          Count(t.args[k]);
          TallySnoc(t.args, k, m);
          k := k + 1;
        }
        assert t.args[..k] == t.args;
      }
    }

    /** Everything the visit keeps; active are the terms whose visit has begun and not ended. */
    ghost predicate Visiting(active: set<Term>)
      reads this
    {
      Bound(names, lines, bound, pre) && Done(cnt, seen, names, active)
    }

    /** gen_fe.py:167-175. A visit binds below it what is referenced more than once; every operator term it reaches for
        the first time is written out once, in a new line or where t itself will be shown. */
    method Visit(t: Term, ghost active: set<Term>)
      requires Visiting(active) && t !in active
      requires forall u :: u in active ==> Size(t) < Size(u)
      requires Within(Tally(t, seen), cnt)
      modifies this`names, this`lines, this`bound, this`seen
      ensures Visiting(active) && seen == Tally(t, old(seen))
      ensures Extends(old(names), names, Size(t))
      ensures Singles(Written(t, names), cnt)
      ensures Paid(old(bound), old(seen), bound, seen, Written(t, names), pre)
      decreases t, 1
    {
      hide Done, Bound, Paid, Singles, Extends, Within, Written, LinesWritten, TallyAll, Ops;
      ghost var m, a, b := seen, names, bound;
      seen := seen[t := Get(seen, t) + 1];
      if !t.Op? || t in names {
        Returned(t, cnt, m, names, active, bound, pre);
        return;
      }
      Entered(t, cnt, m, names, active);
      VisitArgs(t, active);
      Written1(t, names, a);
      PaidOne(b, m, t, bound, seen, names, pre);
      if cnt[t] > 1 {
        var nm := Name(pre, |names|);
        Sized(names, lines, bound, pre);
        BindOne(names, lines, bound, pre, t);
        Left(t, cnt, seen, a, names, active, nm);
        lines := lines + [(nm, Expand(t, names))];
        PaidBound(b, m, bound, seen, t, names, nm, pre);
        bound := bound + [t];
        names := names[t := nm];
      } else {
        LeftSingle(t, cnt, seen, a, names, active);
      }
    }

    method VisitArgs(t: Term, ghost active: set<Term>)
      requires t.Op? && Visiting(active + {t}) && t !in names
      requires forall u :: u in active ==> Size(t) < Size(u)
      requires Within(TallyAll(t.args, seen), cnt)
      modifies this`names, this`lines, this`bound, this`seen
      ensures Visiting(active + {t}) && seen == TallyAll(t.args, old(seen))
      ensures Extends(old(names), names, Size(t) - 1)
      ensures Singles(AllWritten(t.args, names), cnt)
      ensures Paid(old(bound), old(seen), bound, seen, AllWritten(t.args, names), pre)
      decreases t, 0
    {
      hide Done, Bound, Paid, Singles, Extends, Within, Written, LinesWritten, TallyAll, Ops, AllWritten;
      ghost var m, a0, b0 := seen, names, bound;
      var k := 0;
      StartArgs(t.args, m, a0, b0, cnt, pre);
      while k < |t.args|
        invariant 0 <= k <= |t.args|
        invariant Visiting(active + {t}) && seen == TallyAll(t.args[..k], m)
        invariant Extends(a0, names, Size(t) - 1)
        invariant Singles(AllWritten(t.args[..k], names), cnt)
        invariant Paid(b0, m, bound, seen, AllWritten(t.args[..k], names), pre)
      {
        ghost var a, b, s := names, bound, seen;
        TallySnoc(t.args, k, m);
        TallyPrefix(t.args, k + 1, m);
        WithinTrans(TallyAll(t.args[..k + 1], m), TallyAll(t.args, m), cnt);
        Visit(t.args[k], active + {t});
        NextArg(t.args, k, a0, a, names, Size(t) - 1, cnt, seen, active + {t});
        PaidStep(b0, m, b, s, bound, seen, AllWritten(t.args[..k], names), Written(t.args[k], names), pre);
        k := k + 1;
      }
      assert t.args[..k] == t.args;
    }

    /** gen_fe.py:154-178: the lines and the shown outputs. */
    method Emit(outs: seq<Term>) returns (results: seq<Term>)
      requires cnt == map[] && names == map[] && lines == [] && bound == [] && seen == map[]
      modifies this
      ensures Emitted(outs, names, lines, bound, results, pre)
    {
      hide Done, Bound, Paid, Singles, Extends, Within, Written, LinesWritten, TallyAll, Ops, AllWritten;
      Started(outs, pre);
      var k := 0;
      while k < |outs|
        invariant 0 <= k <= |outs|
        invariant cnt == TallyAll(outs[..k], map[]) && Positive(cnt)
        invariant names == map[] && lines == [] && bound == [] && seen == map[]
        modifies this`cnt
      {
        Count(outs[k]);
        TallySnoc(outs, k, map[]);
        k := k + 1;
      }
      assert outs[..k] == outs;
      ghost var m: map<Term, nat> := map[];
      StartArgs(outs, m, names, bound, cnt, pre);
      k := 0;
      while k < |outs|
        invariant 0 <= k <= |outs| && cnt == TallyAll(outs, m)
        invariant Visiting({}) && seen == TallyAll(outs[..k], m)
        invariant Extends(map[], names, Sizes(outs))
        invariant Singles(AllWritten(outs[..k], names), cnt)
        invariant Paid([], m, bound, seen, AllWritten(outs[..k], names), pre)
      {
        ghost var a, b, s := names, bound, seen;
        TallySnoc(outs, k, m);
        TallyPrefix(outs, k + 1, m);
        Visit(outs[k], {});
        NextArg(outs, k, map[], a, names, Sizes(outs), cnt, seen, {});
        PaidStep([], m, b, s, bound, seen, AllWritten(outs[..k], names), Written(outs[k], names), pre);
        k := k + 1;
      }
      assert outs[..k] == outs;
      results := ShowAll(outs, names);
      Finished(outs, names, lines, bound, results, pre, seen);
    }
  }

  lemma Started(outs: seq<Term>, pre: string)
    ensures TallyAll(outs[..0], map[]) == map[] && Positive(map[])
    ensures Bound(map[], [], [], pre) && forall cnt: map<Term, nat> :: Done(cnt, map[], map[], {})
  {}

  /** What is emitted: lines for exactly the operator subterms referenced more than once, results in
      order, and every distinct operator subterm of the outputs written out exactly once. */
  ghost predicate Emitted(outs: seq<Term>, names: map<Term, string>, lines: seq<Line>, bound: seq<Term>,
                          results: seq<Term>, pre: string)
  {
    && Bound(names, lines, bound, pre)
    && results == ShowAll(outs, names)
    && names.Keys == (set u | u in AllSubterms(outs) && u.Op? && Get(TallyAll(outs, map[]), u) > 1)
    && LinesWritten(bound, pre) + AllWritten(outs, names) == multiset(set u | u in AllSubterms(outs) && u.Op?)
  }

  lemma Finished(outs: seq<Term>, names: map<Term, string>, lines: seq<Line>, bound: seq<Term>, results: seq<Term>,
                 pre: string, seen: map<Term, nat>)
    requires seen == TallyAll(outs, map[]) && Done(seen, seen, names, {}) && Bound(names, lines, bound, pre)
    requires Paid([], map[], bound, seen, AllWritten(outs, names), pre)
    requires results == ShowAll(outs, names)
    ensures Emitted(outs, names, lines, bound, results, pre)
  {
    hide LinesWritten, AllWritten;
    assert LinesWritten([], pre) == multiset{} by { EmptyLines(pre); }
    TallyAllReaches(outs, map[]);
    NamesKeys(bound, pre);
    forall u | u in names ensures u.Op? { assert u in bound; }
    assert Closed(map[], Sizes(outs));
    assert multiset(Ops(map[])) == multiset{} by { assert Ops(map[]) == {}; }
    assert Ops(seen) == (set u | u in AllSubterms(outs) && u.Op?);
    assert names.Keys == (set u | u in AllSubterms(outs) && u.Op? && Get(TallyAll(outs, map[]), u) > 1);
    assert LinesWritten(bound, pre) + AllWritten(outs, names) == multiset(Ops(seen)) by {
      var x, y := LinesWritten(bound, pre) + AllWritten(outs, names), multiset(Ops(seen));
      assert x + multiset{} == x && multiset{} + y == y;
    }
  }

  lemma EmptyLines(pre: string)
    ensures LinesWritten([], pre) == multiset{}
  {}

  // ---- the emitted code means what the outputs mean ----

  /** No variable of the terms looks like a let name. */
  ghost predicate Fresh(ts: set<Term>, pre: string) {
    forall x: string, k: nat :: V(x) in ts ==> x != Name(pre, k)
  }

  /** The lets give each named term its own meaning, under its name. */
  ghost predicate Faithful<D>(names: map<Term, string>, lets: map<string, D>, i: Interp<D>) {
    forall u :: u in names ==> names[u] in lets && lets[names[u]] == Meaning(u, i, map[])
  }

  ghost predicate Unbound(t: Term, lets: set<string>) {
    forall x :: V(x) in Subterms(t) ==> x !in lets
  }

  lemma {:induction false} ExpandMeaning<D>(t: Term, names: map<Term, string>, lets: map<string, D>, i: Interp<D>)
    requires Faithful(names, lets, i) && Unbound(t, lets.Keys)
    ensures Meaning(Expand(t, names), i, lets) == Meaning(t, i, map[])
    decreases t, 0
  {
    match t
    case V(x) => assert t in Subterms(t);
    case Lit(n) =>
    case Op(h, args) =>
      var shown := Expand(t, names).args;
      forall k | 0 <= k < |args| ensures Meaning(shown[k], i, lets) == Meaning(args[k], i, map[]) {
        ArgSubterms(args, k);
        ShowMeaning(args[k], names, lets, i);
      }
      assert Meanings(shown, i, lets) == Meanings(args, i, map[]);
  }

  lemma {:induction false} ShowMeaning<D>(t: Term, names: map<Term, string>, lets: map<string, D>, i: Interp<D>)
    requires Faithful(names, lets, i) && Unbound(t, lets.Keys)
    ensures Meaning(Show(t, names), i, lets) == Meaning(t, i, map[])
    decreases t, 1
  {
    if t !in names { ExpandMeaning(t, names, lets, i); }
  }

  lemma {:induction false} ArgSubterms(ts: seq<Term>, k: nat)
    requires k < |ts|
    ensures Subterms(ts[k]) <= AllSubterms(ts)
    decreases |ts|
  {
    var n := |ts| - 1;
    if k < n {
      ArgSubterms(ts[..n], k);
      assert ts[..n][k] == ts[k];
    }
  }

  /** Running the first n lines gives each bound term its meaning. */
  lemma {:induction false} LinesMeaning<D>(names: map<Term, string>, lines: seq<Line>, bound: seq<Term>, pre: string,
                                           i: Interp<D>, ts: set<Term>, n: nat)
    requires Bound(names, lines, bound, pre) && n <= |lines| && Fresh(ts, pre)
    requires forall k :: 0 <= k < |bound| ==> Subterms(bound[k]) <= ts
    ensures Faithful(NamesOf(bound[..n], pre), RunLines(lines[..n], i), i)
    ensures forall x :: x in RunLines(lines[..n], i) ==> exists k: nat :: k < n && x == Name(pre, k)
  {
    if n > 0 {
      LinesMeaning(names, lines, bound, pre, i, ts, n - 1);
      var b, l, t := bound[..n - 1], lines[..n - 1], bound[n - 1];
      var a, lets := NamesOf(b, pre), RunLines(l, i);
      assert bound[..n][..n - 1] == b && lines[..n][..n - 1] == l && bound[..n][n - 1] == t;
      assert LineOf(lines, bound, pre, n - 1);
      assert Unbound(t, lets.Keys);
      ExpandMeaning(t, a, lets, i);
      var c, after := NamesOf(bound[..n], pre), RunLines(lines[..n], i);
      assert c == a[t := Name(pre, n - 1)];
      assert after == lets[Name(pre, n - 1) := Meaning(t, i, map[])];
      LastNameNew(b, pre);
      BindingKept(a, lets, i, t, Name(pre, n - 1));
    }
  }

  /** One more binding under a name not in use. */
  lemma BindingKept<D>(a: map<Term, string>, lets: map<string, D>, i: Interp<D>, t: Term, x: string)
    requires Faithful(a, lets, i) && forall u :: u in a ==> a[u] != x
    ensures Faithful(a[t := x], lets[x := Meaning(t, i, map[])], i)
  {}

  lemma LastNameNew(bound: seq<Term>, pre: string)
    ensures forall u :: u in NamesOf(bound, pre) ==> NamesOf(bound, pre)[u] != Name(pre, |bound|)
  {
    hide NamesOf, Name;
    NamesOfNames(bound, pre);
    forall u | u in NamesOf(bound, pre) ensures NamesOf(bound, pre)[u] != Name(pre, |bound|) {
      var k: nat :| k < |bound| && NamesOf(bound, pre)[u] == Name(pre, k);
      if Name(pre, k) == Name(pre, |bound|) { NameInjective(pre, k, |bound|); }
    }
  }

  lemma {:induction false} NamesOfNames(bound: seq<Term>, pre: string)
    ensures forall u :: u in NamesOf(bound, pre) ==>
              exists k: nat :: k < |bound| && NamesOf(bound, pre)[u] == Name(pre, k)
    decreases |bound|
  {
    if bound != [] { NamesOfNames(bound[..|bound| - 1], pre); }
  }

  /** For every interpretation, the results evaluated after the let lines are the outputs' values. */
  lemma EmittedMeaning<D>(outs: seq<Term>, names: map<Term, string>, lines: seq<Line>, bound: seq<Term>,
                          results: seq<Term>, pre: string, i: Interp<D>)
    requires Emitted(outs, names, lines, bound, results, pre) && Fresh(AllSubterms(outs), pre)
    ensures Meanings(results, i, RunLines(lines, i)) == Meanings(outs, i, map[])
  {
    hide Show, LinesWritten, AllWritten, Meaning, RunLines;
    BoundSubterms(outs, names, bound, pre);
    LinesMeaning(names, lines, bound, pre, i, AllSubterms(outs), |lines|);
    assert lines[..|lines|] == lines && bound[..|lines|] == bound;
    var lets := RunLines(lines, i);
    forall k | 0 <= k < |outs| ensures Meaning(results[k], i, lets) == Meaning(outs[k], i, map[]) {
      ArgSubterms(outs, k);
      ShowMeaning(outs[k], names, lets, i);
    }
  }

  lemma BoundSubterms(outs: seq<Term>, names: map<Term, string>, bound: seq<Term>, pre: string)
    requires names == NamesOf(bound, pre) && names.Keys <= AllSubterms(outs)
    ensures forall k :: 0 <= k < |bound| ==> Subterms(bound[k]) <= AllSubterms(outs)
  {
    NamesKeys(bound, pre);
    forall k | 0 <= k < |bound| ensures Subterms(bound[k]) <= AllSubterms(outs) {
      assert bound[k] in names;
      AllSubtermsClosed(outs, bound[k]);
    }
  }

  /** The names are distinct, and a line uses only earlier ones. */
  lemma NamesOnceBeforeUse(outs: seq<Term>, names: map<Term, string>, lines: seq<Line>, bound: seq<Term>,
                           results: seq<Term>, pre: string, k: nat, x: string)
    requires Emitted(outs, names, lines, bound, results, pre) && k < |lines|
    ensures forall j :: 0 <= j < |lines| && lines[j].0 == lines[k].0 ==> j == k
    ensures V(x) in Subterms(lines[k].1) ==>
              V(x) in AllSubterms(outs) || exists j: nat :: j < k && x == lines[j].0
  {
    assert LineOf(lines, bound, pre, k);
    forall j | 0 <= j < |lines| && lines[j].0 == lines[k].0 ensures j == k {
      assert LineOf(lines, bound, pre, j);
      NameInjective(pre, j, k);
    }
    if V(x) in Subterms(lines[k].1) {
      var a := NamesOf(bound[..k], pre);
      ExpandVars(bound[k], a, x);
      NamesOfNames(bound[..k], pre);
      if u :| u in a && a[u] == x {
        var j: nat :| j < k && x == Name(pre, j);
        assert LineOf(lines, bound, pre, j);
      } else {
        BoundSubterms(outs, names, bound, pre);
      }
    }
  }

  /** A shown variable is one of the term's own or a name. */
  lemma {:induction false} ExpandVars(t: Term, names: map<Term, string>, x: string)
    requires V(x) in Subterms(Expand(t, names))
    ensures V(x) in Subterms(t) || exists u :: u in names && names[u] == x
    decreases t, 0
  {
    if t.Op? {
      var shown := Expand(t, names).args;
      ArgOf(shown, V(x));
      var k: nat :| k < |shown| && V(x) in Subterms(shown[k]);
      if t.args[k] in names {
        assert names[t.args[k]] == x;
      } else {
        ExpandVars(t.args[k], names, x);
        ArgSubterms(t.args, k);
      }
    }
  }

  lemma {:induction false} ArgOf(ts: seq<Term>, u: Term)
    requires u in AllSubterms(ts)
    ensures exists k: nat :: k < |ts| && u in Subterms(ts[k])
    decreases |ts|
  {
    var n := |ts| - 1;
    if u !in Subterms(ts[n]) {
      ArgOf(ts[..n], u);
      var k: nat :| k < n && u in Subterms(ts[..n][k]);
      assert ts[k] == ts[..n][k];
    }
  }
}
