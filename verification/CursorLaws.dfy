/** What the answers of the gap cursor say of one another (tools/check_iterators.py:6-27): walks list
    the elements in order, an addition goes in before what the next step forward returns, and a change
    touches the element returned last and nothing else. */
module CursorLaws {
  import opened DCursor
  import opened Threads

  // ---- runs in pieces ----

  function Again(op: Op, n: nat): (ops: seq<Op>)
    ensures |ops| == n && forall i :: 0 <= i < n ==> ops[i] == op
  {
    seq(n, _ => op)
  }

  function Adds(xs: seq<nat>): (ops: seq<Op>)
    ensures |ops| == |xs| && forall i :: 0 <= i < |xs| ==> ops[i] == Op.Add(xs[i])
  {
    seq(|xs|, i requires 0 <= i < |xs| => Op.Add(xs[i]))
  }

  lemma {:induction false} RunAppend(m: Model, a: seq<Op>, b: seq<Op>)
    requires Sane(m)
    ensures var (m1, o1) := Run(m, a);
            Run(m, a + b) == (Run(m1, b).0, o1 + Run(m1, b).1)
    decreases |b|
  {
    hide Step;
    var (m1, o1) := Run(m, a);
    if b == [] {
      assert a + b == a && o1 + [] == o1;
    } else {
      var n := |b| - 1;
      RunAppend(m, a, b[..n]);
      assert (a + b)[..|a + b| - 1] == a + b[..n] && (a + b)[|a + b| - 1] == b[n];
      var (m2, o2) := Run(m1, b[..n]);
      assert o1 + (o2 + [Step(m2, b[n]).1]) == (o1 + o2) + [Step(m2, b[n]).1];
    }
  }

  lemma RunOne(m: Model, op: Op)
    requires Sane(m)
    ensures Run(m, [op]) == (Step(m, op).0, [Step(m, op).1])
  {
    hide Step;
    assert [op][..0] == [] && Run(m, []) == (m, []);
    assert [] + [Step(m, op).1] == [Step(m, op).1];
  }

  lemma RunTwo(m: Model, op: Op, op': Op)
    requires Sane(m)
    ensures var (m1, o) := Step(m, op);
            Run(m, [op, op']) == (Step(m1, op').0, [o, Step(m1, op').1])
  {
    hide Step, Run;
    RunOne(m, op); RunOne(Step(m, op).0, op');
    RunAppend(m, [op], [op']);
    var (m1, o) := Step(m, op);
    assert [op] + [op'] == [op, op'] && [o] + [Step(m1, op').1] == [o, Step(m1, op').1];
  }

  lemma RunThree(m: Model, op: Op, op': Op, op'': Op)
    requires Sane(m)
    ensures var (m1, o) := Step(m, op);
            var (m2, o') := Step(m1, op');
            Run(m, [op, op', op'']) == (Step(m2, op'').0, [o, o', Step(m2, op'').1])
  {
    hide Step, Run;
    RunTwo(m, op, op'); RunOne(Step(Step(m, op).0, op').0, op'');
    RunAppend(m, [op, op'], [op'']);
    var (m1, o) := Step(m, op);
    var (m2, o') := Step(m1, op');
    assert [op, op'] + [op''] == [op, op', op''];
    assert [o, o'] + [Step(m2, op'').1] == [o, o', Step(m2, op'').1];
  }

  // ---- walks ----

  lemma {:induction false} Forward(m: Model, n: nat)
    requires Sane(m) && m.pos + n <= |m.items|
    ensures var (m', outs) := Run(m, Again(Op.Next, n));
            && m'.items == m.items && m'.pos == m.pos + n
            && forall i :: 0 <= i < n ==> outs[i] == Value(m.items[m.pos + i])
  {
    if n > 0 {
      Forward(m, n - 1);
      assert Again(Op.Next, n)[..n - 1] == Again(Op.Next, n - 1);
    }
  }

  lemma {:induction false} Backward(m: Model, n: nat)
    requires Sane(m) && n <= m.pos
    ensures var (m', outs) := Run(m, Again(Op.Previous, n));
            && m'.items == m.items && m'.pos == m.pos - n
            && forall i :: 0 <= i < n ==> outs[i] == Value(m.items[m.pos - 1 - i])
  {
    if n > 0 {
      Backward(m, n - 1);
      assert Again(Op.Previous, n)[..n - 1] == Again(Op.Previous, n - 1);
    }
  }

  lemma EndSteps(m: Model)
    requires Sane(m)
    ensures m.pos == |m.items| ==> Step(m, Op.Next) == (m, AtEnd)
    ensures m.pos == 0 ==> Step(m, Op.Previous) == (m, AtEnd)
  {}

  /** The answers of a walk: done, the values in order, and the end. */
  ghost predicate Lists(outs: seq<Out>, xs: seq<nat>) {
    |outs| == |xs| + 1 && (forall i :: 0 <= i < |xs| ==> outs[i] == Value(xs[i])) && outs[|xs|] == AtEnd
  }

  /** Steps forward answer the elements behind the gap in order, and then the end. */
  lemma WalkOn(m: Model)
    requires Sane(m)
    ensures Lists(Run(m, Again(Op.Next, |m.items| - m.pos + 1)).1, m.items[m.pos..])
  {
    hide Run, Step;
    var n := |m.items| - m.pos;
    Forward(m, n);
    EndSteps(Run(m, Again(Op.Next, n)).0);
    RunAppend(m, Again(Op.Next, n), [Op.Next]);
    RunOne(Run(m, Again(Op.Next, n)).0, Op.Next);
    assert Again(Op.Next, n + 1) == Again(Op.Next, n) + [Op.Next];
  }

  /** Steps back answer the elements before the gap, the nearest first, and then the end. */
  lemma WalkBack(m: Model)
    requires Sane(m)
    ensures var outs := Run(m, Again(Op.Previous, m.pos + 1)).1;
            && (forall i :: 0 <= i < m.pos ==> outs[i] == Value(m.items[m.pos - 1 - i])) && outs[m.pos] == AtEnd
  {
    hide Run, Step;
    Backward(m, m.pos);
    EndSteps(Run(m, Again(Op.Previous, m.pos)).0);
    RunAppend(m, Again(Op.Previous, m.pos), [Op.Previous]);
    RunOne(Run(m, Again(Op.Previous, m.pos)).0, Op.Previous);
    assert Again(Op.Previous, m.pos + 1) == Again(Op.Previous, m.pos) + [Op.Previous];
  }

  /** The whole list, forward from its beginning. */
  lemma WalkFirst(m: Model)
    requires Sane(m)
    ensures var outs := Run(m, [Op.First] + Again(Op.Next, |m.items| + 1)).1;
            outs[0] == Done && Lists(outs[1..], m.items)
  {
    hide Run, Lists;
    RunOne(m, Op.First);
    RunAppend(m, [Op.First], Again(Op.Next, |m.items| + 1));
    WalkOn(Step(m, Op.First).0);
    assert m.items[0..] == m.items;
  }

  /** The whole list, backward from its end. */
  lemma WalkLast(m: Model)
    requires Sane(m)
    ensures var outs, n := Run(m, [Op.Last] + Again(Op.Previous, |m.items| + 1)).1, |m.items|;
            && outs[0] == Done && outs[n + 1] == AtEnd
            && forall i :: 1 <= i <= n ==> outs[i] == Value(m.items[n - i])
  {
    hide Run;
    RunOne(m, Op.Last);
    RunAppend(m, [Op.Last], Again(Op.Previous, |m.items| + 1));
    WalkBack(Step(m, Op.Last).0);
  }

  // ---- additions ----

  lemma {:induction false} AddsAre(m: Model, xs: seq<nat>)
    requires Sane(m)
    ensures var (m', outs) := Run(m, Adds(xs));
            && m'.items == m.items[..m.pos] + xs + m.items[m.pos..] && m'.pos == m.pos + |xs|
            && forall i :: 0 <= i < |xs| ==> outs[i] == Done
    decreases |xs|
  {
    if xs == [] {
      assert m.items[..m.pos] + xs + m.items[m.pos..] == m.items;
    } else {
      var n := |xs| - 1;
      AddsAre(m, xs[..n]);
      assert Adds(xs)[..n] == Adds(xs[..n]);
      var m1 := Run(m, Adds(xs[..n])).0;
      AddedAt(m.items[..m.pos], xs[..n], m.items[m.pos..], xs[n]);
      assert xs == xs[..n] + [xs[n]];
    }
  }

  lemma AddedAt(a: seq<nat>, xs: seq<nat>, b: seq<nat>, x: nat)
    ensures var s := a + xs + b;
            s[..|a| + |xs|] + [x] + s[|a| + |xs|..] == a + (xs + [x]) + b
  {}

  /** Elements added one after the other come out in that order, between those before the gap and
      those behind it. */
  lemma AddsInOrder(m: Model, xs: seq<nat>)
    requires Sane(m)
    ensures var outs := Run(m, Adds(xs) + ([Op.First] + Again(Op.Next, |m.items| + |xs| + 1))).1;
            Lists(outs[|xs| + 1..], m.items[..m.pos] + xs + m.items[m.pos..])
  {
    hide Run, Lists, Step;
    var walk := [Op.First] + Again(Op.Next, |m.items| + |xs| + 1);
    AddsAre(m, xs);
    RunAppend(m, Adds(xs), walk);
    var (m1, o) := Run(m, Adds(xs));
    WalkFirst(m1);
    var outs := Run(m, Adds(xs) + walk).1;
    assert outs[|xs| + 1..] == Run(m1, walk).1[1..];
  }

  /** An addition goes in before the gap: a step back answers it, a step forward what it would have
      answered without the addition. */
  lemma StepsAfterAdd(m: Model, x: nat)
    requires Sane(m)
    ensures Run(m, [Op.Add(x), Op.Previous]).1 == [Done, Value(x)]
    ensures Run(m, [Op.Add(x), Op.Next]).1 == [Done] + Run(m, [Op.Next]).1
  {
    hide Run, Step;
    AddSteps(m, x);
    RunTwo(m, Op.Add(x), Op.Previous); RunTwo(m, Op.Add(x), Op.Next);
    RunOne(m, Op.Next);
  }

  lemma AddSteps(m: Model, x: nat)
    requires Sane(m)
    ensures var (m1, o) := Step(m, Op.Add(x));
            o == Done && Step(m1, Op.Previous).1 == Value(x) && Step(m1, Op.Next).1 == Step(m, Op.Next).1
  {}

  // ---- steps undo each other ----

  /** A step back after a step forward answers the same element, and conversely. */
  lemma BackAndForth(m: Model, v: nat)
    requires Sane(m)
    ensures Run(m, [Op.Next]).1 == [Value(v)] ==> Run(m, [Op.Next, Op.Previous]).1 == [Value(v), Value(v)]
    ensures Run(m, [Op.Previous]).1 == [Value(v)] ==> Run(m, [Op.Previous, Op.Next]).1 == [Value(v), Value(v)]
  {
    hide Run, Step;
    RunTwo(m, Op.Next, Op.Previous); RunTwo(m, Op.Previous, Op.Next);
    RunOne(m, Op.Next); RunOne(m, Op.Previous);
    BackAndForthSteps(m);
  }

  lemma BackAndForthSteps(m: Model)
    requires Sane(m)
    ensures var (m1, o) := Step(m, Op.Next); o.Value? ==> Step(m1, Op.Previous).1 == o
    ensures var (m1, o) := Step(m, Op.Previous); o.Value? ==> Step(m1, Op.Next).1 == o
  {}

  /** The questions answer whether the next step in their direction has an element to return. */
  lemma QuestionsAnswered(m: Model)
    requires Sane(m)
    ensures Run(m, [Op.HasNext]).1 == [Answer(Run(m, [Op.Next]).1 != [AtEnd])]
    ensures Run(m, [Op.HasPrevious]).1 == [Answer(Run(m, [Op.Previous]).1 != [AtEnd])]
    ensures Run(m, [Op.HasNext]).0 == m == Run(m, [Op.HasPrevious]).0
  {
    hide Run;
    RunOne(m, Op.HasNext); RunOne(m, Op.HasPrevious); RunOne(m, Op.Next); RunOne(m, Op.Previous);
  }

  // ---- changes ----

  /** What the list is after a run, as a walk from its beginning answers it. */
  lemma ThenWalk(m: Model, ops: seq<Op>, xs: seq<nat>)
    requires Sane(m) && Run(m, ops).0.items == xs
    ensures var outs := Run(m, ops + ([Op.First] + Again(Op.Next, |xs| + 1))).1;
            Lists(outs[|ops| + 1..], xs)
  {
    hide Run, Lists, Step;
    var walk := [Op.First] + Again(Op.Next, |xs| + 1);
    RunAppend(m, ops, walk);
    var m1 := Run(m, ops).0;
    WalkFirst(m1);
    assert Run(m, ops + walk).1[|ops| + 1..] == Run(m1, walk).1[1..];
  }

  lemma ThenWalkTwo(m: Model, a: Op, b: Op, xs: seq<nat>, n: nat)
    requires Sane(m) && Run(m, [a, b]).0.items == xs && n == |xs| + 1
    ensures Lists(Run(m, [a, b] + ([Op.First] + Again(Op.Next, n))).1[3..], xs)
  {
    hide Run, Lists;
    ThenWalk(m, [a, b], xs);
    assert |[a, b]| + 1 == 3;
  }

  lemma SetStepsNext(m: Model, v: nat, x: nat)
    requires Sane(m) && Step(m, Op.Next).1 == Value(v)
    ensures m.pos < |m.items| && m.items[m.pos] == v
    ensures var m1 := Step(m, Op.Next).0;
            var (m2, o) := Step(m1, Op.Set(x));
            && o == Done && m2.items == m.items[m.pos := x]
            && Step(m2, Op.Previous).1 == Value(x) && Step(m2, Op.Next).1 == Step(m1, Op.Next).1
  {}

  /** After a step forward: the element it answered is replaced, in its place and nowhere else; a step
      back then answers the new value, a step forward what it would have answered without it. */
  lemma SetAfterNext(m: Model, v: nat, x: nat)
    requires Sane(m) && Run(m, [Op.Next]).1 == [Value(v)]
    ensures m.pos < |m.items| && m.items[m.pos] == v
    ensures Run(m, [Op.Next, Op.Set(x), Op.Previous]).1 == [Value(v), Done, Value(x)]
    ensures Run(m, [Op.Next, Op.Set(x), Op.Next]).1 == [Value(v), Done, Run(m, [Op.Next, Op.Next]).1[1]]
  {
    hide Run, Step;
    RunOne(m, Op.Next);
    SetStepsNext(m, v, x);
    RunTwo(m, Op.Next, Op.Set(x)); RunTwo(m, Op.Next, Op.Next);
    RunThree(m, Op.Next, Op.Set(x), Op.Previous); RunThree(m, Op.Next, Op.Set(x), Op.Next);
  }

  /** The list is then the same but for that element. */
  lemma SetInPlaceNext(m: Model, v: nat, x: nat)
    requires Sane(m) && Run(m, [Op.Next]).1 == [Value(v)]
    ensures m.pos < |m.items| && m.items[m.pos] == v
    ensures Lists(Run(m, [Op.Next, Op.Set(x)] + ([Op.First] + Again(Op.Next, |m.items| + 1))).1[3..],
                  m.items[m.pos := x])
  {
    hide Run, Step, Lists;
    RunOne(m, Op.Next);
    SetStepsNext(m, v, x);
    RunTwo(m, Op.Next, Op.Set(x));
    ThenWalkTwo(m, Op.Next, Op.Set(x), m.items[m.pos := x], |m.items| + 1);
  }

  lemma SetStepsPrevious(m: Model, v: nat, x: nat)
    requires Sane(m) && Step(m, Op.Previous).1 == Value(v)
    ensures m.pos > 0 && m.items[m.pos - 1] == v
    ensures var m1 := Step(m, Op.Previous).0;
            var (m2, o) := Step(m1, Op.Set(x));
            && o == Done && m2.items == m.items[m.pos - 1 := x]
            && Step(m2, Op.Next).1 == Value(x) && Step(m2, Op.Previous).1 == Step(m1, Op.Previous).1
  {}

  /** After a step back, likewise. */
  lemma SetAfterPrevious(m: Model, v: nat, x: nat)
    requires Sane(m) && Run(m, [Op.Previous]).1 == [Value(v)]
    ensures m.pos > 0 && m.items[m.pos - 1] == v
    ensures Run(m, [Op.Previous, Op.Set(x), Op.Next]).1 == [Value(v), Done, Value(x)]
    ensures Run(m, [Op.Previous, Op.Set(x), Op.Previous]).1
            == [Value(v), Done, Run(m, [Op.Previous, Op.Previous]).1[1]]
  {
    hide Run, Step;
    RunOne(m, Op.Previous);
    SetStepsPrevious(m, v, x);
    RunTwo(m, Op.Previous, Op.Set(x)); RunTwo(m, Op.Previous, Op.Previous);
    RunThree(m, Op.Previous, Op.Set(x), Op.Next); RunThree(m, Op.Previous, Op.Set(x), Op.Previous);
  }

  /** The list is then the same but for that element. */
  lemma SetInPlacePrevious(m: Model, v: nat, x: nat)
    requires Sane(m) && Run(m, [Op.Previous]).1 == [Value(v)]
    ensures m.pos > 0 && m.items[m.pos - 1] == v
    ensures Lists(Run(m, [Op.Previous, Op.Set(x)] + ([Op.First] + Again(Op.Next, |m.items| + 1))).1[3..],
                  m.items[m.pos - 1 := x])
  {
    hide Run, Step, Lists;
    RunOne(m, Op.Previous);
    SetStepsPrevious(m, v, x);
    RunTwo(m, Op.Previous, Op.Set(x));
    ThenWalkTwo(m, Op.Previous, Op.Set(x), m.items[m.pos - 1 := x], |m.items| + 1);
  }

  lemma RemoveStepsNext(m: Model, v: nat)
    requires Sane(m) && Step(m, Op.Next).1 == Value(v)
    ensures m.pos < |m.items| && m.items[m.pos] == v
    ensures var m1 := Step(m, Op.Next).0;
            var (m2, o) := Step(m1, Op.Remove);
            && o == Done && m2.items == m.items[..m.pos] + m.items[m.pos + 1..]
            && Step(m2, Op.Previous).1 == Step(m, Op.Previous).1 && Step(m2, Op.Next).1 == Step(m1, Op.Next).1
  {}

  /** After a step forward the element it answered goes, that one only; the next steps answer what
      they would have answered around it. */
  lemma RemoveAfterNext(m: Model, v: nat)
    requires Sane(m) && Run(m, [Op.Next]).1 == [Value(v)]
    ensures m.pos < |m.items| && m.items[m.pos] == v
    ensures Run(m, [Op.Next, Op.Remove, Op.Previous]).1 == [Value(v), Done, Run(m, [Op.Previous]).1[0]]
    ensures Run(m, [Op.Next, Op.Remove, Op.Next]).1 == [Value(v), Done, Run(m, [Op.Next, Op.Next]).1[1]]
  {
    hide Run, Step;
    RunOne(m, Op.Next); RunOne(m, Op.Previous);
    RemoveStepsNext(m, v);
    RunTwo(m, Op.Next, Op.Remove); RunTwo(m, Op.Next, Op.Next);
    RunThree(m, Op.Next, Op.Remove, Op.Previous); RunThree(m, Op.Next, Op.Remove, Op.Next);
  }

  /** The list is then the same but for that element. */
  lemma RemoveInPlaceNext(m: Model, v: nat)
    requires Sane(m) && Run(m, [Op.Next]).1 == [Value(v)]
    ensures m.pos < |m.items| && m.items[m.pos] == v
    ensures Lists(Run(m, [Op.Next, Op.Remove] + ([Op.First] + Again(Op.Next, |m.items|))).1[3..],
                  m.items[..m.pos] + m.items[m.pos + 1..])
  {
    hide Run, Step, Lists;
    RunOne(m, Op.Next);
    RemoveStepsNext(m, v);
    RunTwo(m, Op.Next, Op.Remove);
    ThenWalkTwo(m, Op.Next, Op.Remove, m.items[..m.pos] + m.items[m.pos + 1..], |m.items|);
  }

  lemma RemoveStepsPrevious(m: Model, v: nat)
    requires Sane(m) && Step(m, Op.Previous).1 == Value(v)
    ensures m.pos > 0 && m.items[m.pos - 1] == v
    ensures var m1 := Step(m, Op.Previous).0;
            var (m2, o) := Step(m1, Op.Remove);
            && o == Done && m2.items == m.items[..m.pos - 1] + m.items[m.pos..]
            && Step(m2, Op.Next).1 == Step(m, Op.Next).1 && Step(m2, Op.Previous).1 == Step(m1, Op.Previous).1
  {}

  /** After a step back, likewise. */
  lemma RemoveAfterPrevious(m: Model, v: nat)
    requires Sane(m) && Run(m, [Op.Previous]).1 == [Value(v)]
    ensures m.pos > 0 && m.items[m.pos - 1] == v
    ensures Run(m, [Op.Previous, Op.Remove, Op.Next]).1 == [Value(v), Done, Run(m, [Op.Next]).1[0]]
    ensures Run(m, [Op.Previous, Op.Remove, Op.Previous]).1
            == [Value(v), Done, Run(m, [Op.Previous, Op.Previous]).1[1]]
  {
    hide Run, Step;
    RunOne(m, Op.Previous); RunOne(m, Op.Next);
    RemoveStepsPrevious(m, v);
    RunTwo(m, Op.Previous, Op.Remove); RunTwo(m, Op.Previous, Op.Previous);
    RunThree(m, Op.Previous, Op.Remove, Op.Next); RunThree(m, Op.Previous, Op.Remove, Op.Previous);
  }

  /** The list is then the same but for that element. */
  lemma RemoveInPlacePrevious(m: Model, v: nat)
    requires Sane(m) && Run(m, [Op.Previous]).1 == [Value(v)]
    ensures m.pos > 0 && m.items[m.pos - 1] == v
    ensures Lists(Run(m, [Op.Previous, Op.Remove] + ([Op.First] + Again(Op.Next, |m.items|))).1[3..],
                  m.items[..m.pos - 1] + m.items[m.pos..])
  {
    hide Run, Step, Lists;
    RunOne(m, Op.Previous);
    RemoveStepsPrevious(m, v);
    RunTwo(m, Op.Previous, Op.Remove);
    ThenWalkTwo(m, Op.Previous, Op.Remove, m.items[..m.pos - 1] + m.items[m.pos..], |m.items|);
  }

  /** There is no element to change at either end of the list before a step, or after an addition or a
      removal; a step that meets the end changes nothing. */
  lemma NothingCurrent(m: Model, change: Op, x: nat)
    requires Sane(m) && (change == Op.Remove || change == Op.Set(x))
    ensures Run(m, [Op.First, change]).1[1] == NoCurrent && Run(m, [Op.Last, change]).1[1] == NoCurrent
    ensures Run(m, [Op.Add(x), change]).1[1] == NoCurrent && Run(m, [Op.Remove, change]).1[1] == NoCurrent
    ensures Run(m, [Op.Next]).1 == [AtEnd] ==> Run(m, [Op.Next]).0 == m
    ensures Run(m, [Op.Previous]).1 == [AtEnd] ==> Run(m, [Op.Previous]).0 == m
    ensures Run(m, [change]).1 == [NoCurrent] ==> Run(m, [change]).0 == m
  {
    hide Run;
    RunTwo(m, Op.First, change); RunTwo(m, Op.Last, change); RunTwo(m, Op.Add(x), change);
    RunTwo(m, Op.Remove, change);
    RunOne(m, Op.Next); RunOne(m, Op.Previous); RunOne(m, change);
  }

  /** A replaced element can still be removed. */
  lemma RemoveAfterSet(m: Model, x: nat)
    requires Sane(m) && Run(m, [Op.Set(x)]).1 == [Done]
    ensures Run(m, [Op.Set(x), Op.Remove]) == (Run(m, [Op.Remove]).0, [Done, Done])
  {
    hide Run, Step;
    RunOne(m, Op.Set(x)); RunOne(m, Op.Remove); RunTwo(m, Op.Set(x), Op.Remove);
    RemoveSteps(m, x);
  }

  lemma RemoveSteps(m: Model, x: nat)
    requires Sane(m) && Step(m, Op.Set(x)).1 == Done
    ensures Step(Step(m, Op.Set(x)).0, Op.Remove) == Step(m, Op.Remove) && Step(m, Op.Remove).1 == Done
  {
    assert Cut(m.items[m.last.index := x], m.last.index) == Cut(m.items, m.last.index);
  }
}
