/** The least-recently-used cache as one sequence of entries, oldest first: what every run of
    benchmarks/native/lru.c is proved to refine (module Lru), with the laws of the sequence. */
module LruModel {
  import opened Sequences

  datatype Entry = Entry(key: nat, val: nat, deadline: int)

  /** `replaced` is not a metric of the C code: it counts the additions that replaced an entry. */
  datatype Metrics = Metrics(inserts: nat, evictions: nat, removals: nat, hits: nat, misses: nat, replaced: nat)

  datatype Model = Model(cap: nat, life: int, entries: seq<Entry>, metrics: Metrics)

  const ZERO := Metrics(0, 0, 0, 0, 0, 0)

  /** C division truncates toward zero. */
  function TruncDiv(a: int, b: int): int
    requires b > 0
  {
    if a >= 0 then a / b else -((-a) / b)
  }

  /** lru.c:193-197: lifetime in nanoseconds, stamps in milliseconds, deadline 0 = immortal. */
  function DeadlineOf(life: int, now: int): int {
    if life == 0 then 0 else now + TruncDiv(life, 1_000_000)
  }

  predicate Expired(deadline: int, now: int) {
    deadline != 0 && deadline <= now
  }

  function IndexOf(es: seq<Entry>, k: nat): (i: int)
    ensures -1 <= i < |es|
    ensures i >= 0 ==> es[i].key == k
    ensures forall j :: 0 <= j < (if i >= 0 then i else |es|) ==> es[j].key != k
  {
    if es == [] then -1
    else if es[0].key == k then 0
    else
      var i := IndexOf(es[1..], k);
      assert forall j :: 1 <= j < |es| ==> es[j] == es[1..][j - 1];
      if i < 0 then -1 else i + 1
  }

  // ---- the operations ----

  /** lru.c:212-239. */
  function Add(m: Model, k: nat, v: nat, now: int): (Model, bool) {
    var e := Entry(k, v, DeadlineOf(m.life, now));
    var i := IndexOf(m.entries, k);
    if i >= 0 then
      (m.(entries := Drop(m.entries, i) + [e],
          metrics := m.metrics.(inserts := m.metrics.inserts + 1, replaced := m.metrics.replaced + 1)), false)
    else if m.cap <= |m.entries| && m.entries != [] then
      (m.(entries := m.entries[1..] + [e],
          metrics := m.metrics.(inserts := m.metrics.inserts + 1, evictions := m.metrics.evictions + 1)), true)
    else
      (m.(entries := m.entries + [e],
          metrics := m.metrics.(inserts := m.metrics.inserts + 1)), false)
  }

  /** lru.c:242-257: a tracked read counts and touches, an untracked one does neither; an expired
      entry is removed and reads as a miss. */
  function Read(m: Model, k: nat, now: int, tracked: bool): (Model, nat, bool) {
    var i := IndexOf(m.entries, k);
    if i < 0 then
      (if tracked then m.(metrics := m.metrics.(misses := m.metrics.misses + 1)) else m, 0, false)
    else if Expired(m.entries[i].deadline, now) then
      var met := m.metrics.(removals := m.metrics.removals + 1);
      (m.(entries := Drop(m.entries, i),
          metrics := if tracked then met.(misses := met.misses + 1) else met), 0, false)
    else
      (if tracked then
         m.(entries := Drop(m.entries, i) + [m.entries[i]], metrics := m.metrics.(hits := m.metrics.hits + 1))
       else m, m.entries[i].val, true)
  }

  /** lru.c:259-263. */
  function Remove(m: Model, k: nat): (Model, nat, bool) {
    var i := IndexOf(m.entries, k);
    if i < 0 then (m, 0, false)
    else
      (m.(entries := Drop(m.entries, i), metrics := m.metrics.(removals := m.metrics.removals + 1)),
       m.entries[i].val, true)
  }

  /** lru.c:265-274. */
  function Purge(m: Model): (Model, nat) {
    (m.(entries := [], metrics := ZERO), |m.entries|)
  }

  /** lru.c:277-284: capacity 0 is refused; otherwise the oldest entries over the capacity go. */
  function Resize(m: Model, cap: nat): (Model, bool, nat) {
    if cap == 0 then (m, false, 0)
    else
      var ev := if cap < |m.entries| then |m.entries| - cap else 0;
      (m.(cap := cap, entries := m.entries[ev..],
          metrics := m.metrics.(evictions := m.metrics.evictions + ev)), true, ev)
  }

  /** How many oldest entries are expired before the first one that is not. */
  function ExpiredPrefix(es: seq<Entry>, now: int): (n: nat)
    ensures n <= |es|
    ensures forall j :: 0 <= j < n ==> Expired(es[j].deadline, now)
    ensures n < |es| ==> !Expired(es[n].deadline, now)
  {
    if es != [] && Expired(es[0].deadline, now) then 1 + ExpiredPrefix(es[1..], now) else 0
  }

  function KeysOf(es: seq<Entry>): (ks: seq<nat>)
    ensures |ks| == |es| && forall j :: 0 <= j < |es| ==> ks[j] == es[j].key
  {
    seq(|es|, j requires 0 <= j < |es| => es[j].key)
  }

  /** lru.c:289-294. */
  function Keys(m: Model, now: int): (Model, seq<nat>) {
    var n := ExpiredPrefix(m.entries, now);
    (m.(entries := m.entries[n..], metrics := m.metrics.(removals := m.metrics.removals + n)),
     KeysOf(m.entries[n..]))
  }

  /** lru.c:416, the field assignment. */
  function SetLife(m: Model, life: int): Model {
    m.(life := life)
  }

  // ---- runs ----

  datatype Op =
    | AddOp(k: nat, v: nat, now: int)
    | ReadOp(k: nat, now: int, tracked: bool)
    | RemoveOp(k: nat)
    | PurgeOp
    | ResizeOp(cap: nat)
    | KeysOp(now: int)
    | SetLifeOp(life: int)

  datatype Out = Evicted(ev: bool) | Value(v: nat, found: bool) | Count(n: nat) | Resized(ok: bool, ev2: nat)
               | KeyList(ks: seq<nat>) | Done

  function Step(m: Model, op: Op): (Model, Out) {
    match op
    case AddOp(k, v, now) => var (m', ev) := Add(m, k, v, now); (m', Evicted(ev))
    case ReadOp(k, now, tracked) => var (m', v, f) := Read(m, k, now, tracked); (m', Value(v, f))
    case RemoveOp(k) => var (m', v, f) := Remove(m, k); (m', Value(v, f))
    case PurgeOp => var (m', n) := Purge(m); (m', Count(n))
    case ResizeOp(cap) => var (m', ok, ev) := Resize(m, cap); (m', Resized(ok, ev))
    case KeysOp(now) => var (m', ks) := Keys(m, now); (m', KeyList(ks))
    case SetLifeOp(life) => (SetLife(m, life), Done)
  }

  function Run(m: Model, ops: seq<Op>): Model {
    if ops == [] then m else Step(Run(m, ops[..|ops| - 1]), ops[|ops| - 1]).0
  }

  /** What the operations of a run answer. */
  function Outs(m: Model, ops: seq<Op>): (outs: seq<Out>)
    ensures |outs| == |ops|
  {
    if ops == [] then [] else
    var before := ops[..|ops| - 1];
    Outs(m, before) + [Step(Run(m, before), ops[|ops| - 1]).1]
  }

  lemma RunSnoc(m: Model, ops: seq<Op>, i: nat)
    requires i < |ops|
    ensures var (m', o) := Step(Run(m, ops[..i]), ops[i]);
            Run(m, ops[..i + 1]) == m' && Outs(m, ops[..i + 1]) == Outs(m, ops[..i]) + [o]
  {
    assert ops[..i + 1][..i] == ops[..i];
  }

  function New(cap: nat): Model {
    Model(cap, 0, [], ZERO)
  }

  // ---- laws of every run ----

  ghost predicate DistinctKeys(es: seq<Entry>) {
    forall i, j :: 0 <= i < j < |es| ==> es[i].key != es[j].key
  }

  /** Conservation: what came in since the last purge is still there, was evicted, was removed or
      was overwritten. */
  ghost predicate Good(m: Model) {
    && 0 < m.cap && |m.entries| <= m.cap
    && DistinctKeys(m.entries)
    && m.metrics.inserts == |m.entries| + m.metrics.evictions + m.metrics.removals + m.metrics.replaced
  }

  /** Operation op uses key k: an addition of k, or a tracked read that finds k. */
  predicate Uses(m: Model, op: Op, k: nat) {
    match op
    case AddOp(k', _, _) => k' == k
    case ReadOp(k', now, tracked) => k' == k && tracked && Read(m, k, now, tracked).2
    case _ => false
  }

  /** f picks, in increasing order, where each entry of `kept` was in es. */
  ghost predicate Picks(es: seq<Entry>, kept: seq<Entry>, f: seq<nat>) {
    && |f| == |kept|
    && (forall i :: 0 <= i < |f| ==> f[i] < |es| && kept[i] == es[f[i]])
    && (forall i, j :: 0 <= i < j < |f| ==> f[i] < f[j])
  }

  lemma DropPicks(es: seq<Entry>, d: nat) returns (f: seq<nat>)
    requires d < |es| && DistinctKeys(es)
    ensures Picks(es, Drop(es, d), f) && |Drop(es, d)| == |es| - 1
    ensures forall i :: 0 <= i < |es| - 1 ==> Drop(es, d)[i].key != es[d].key
  {
    f := seq(|es| - 1, i requires 0 <= i => if i < d then i else i + 1);
    forall i | 0 <= i < |es| - 1 ensures Drop(es, d)[i] == es[f[i]] {}
  }

  lemma SuffixPicks(es: seq<Entry>, n: nat) returns (f: seq<nat>)
    requires n <= |es|
    ensures Picks(es, es[n..], f)
  {
    f := seq(|es| - n, i requires 0 <= i => n + i);
  }

  /** The shape of every step: some entries from before in their old order, none of them used by
      the operation, then the entry the operation used, if it used one. */
  ghost predicate Shape(m: Model, op: Op, kept: seq<Entry>, newest: seq<Entry>, f: seq<nat>) {
    && Step(m, op).0.entries == kept + newest && |newest| <= 1
    && Picks(m.entries, kept, f)
    && (forall i :: 0 <= i < |kept| ==> !Uses(m, op, kept[i].key))
    && (newest != [] ==> Uses(m, op, newest[0].key) && forall k :: Uses(m, op, k) ==> k == newest[0].key)
    && (newest == [] ==> forall k :: !Uses(m, op, k))
  }

  /** The key an addition or a read looks for, and what it then leaves. */
  lemma AddStep(m: Model, k: nat, v: nat, now: int)
    ensures var es, i, e := m.entries, IndexOf(m.entries, k), Entry(k, v, DeadlineOf(m.life, now));
            Step(m, AddOp(k, v, now)).0.entries ==
            (if i >= 0 then Drop(es, i) else es[if m.cap <= |es| && es != [] then 1 else 0..]) + [e]
    ensures forall x :: Uses(m, AddOp(k, v, now), x) <==> x == k
  {
    hide TruncDiv;
  }

  lemma ReadStep(m: Model, k: nat, now: int, tracked: bool)
    ensures var es, i := m.entries, IndexOf(m.entries, k);
            var hit := i >= 0 && !Expired(es[i].deadline, now);
            && Step(m, ReadOp(k, now, tracked)).0.entries ==
               (if i < 0 || (hit && !tracked) then es else Drop(es, i) + (if hit then [es[i]] else []))
            && forall x :: Uses(m, ReadOp(k, now, tracked), x) <==> x == k && tracked && hit
  {
    hide Drop;
  }

  lemma RemoveStep(m: Model, k: nat)
    ensures var es, i := m.entries, IndexOf(m.entries, k);
            Step(m, RemoveOp(k)).0.entries == (if i < 0 then es else Drop(es, i))
    ensures forall x :: !Uses(m, RemoveOp(k), x)
  {}

  /** Shape from the pieces, for an operation that uses key k or none. */
  lemma ShapeOf(m: Model, op: Op, kept: seq<Entry>, newest: seq<Entry>, f: seq<nat>, k: nat, used: bool)
    requires Step(m, op).0.entries == kept + newest && Picks(m.entries, kept, f)
    requires forall x :: Uses(m, op, x) <==> x == k && used
    requires used ==> |newest| == 1 && newest[0].key == k && forall i :: 0 <= i < |kept| ==> kept[i].key != k
    requires !used ==> newest == []
    ensures Shape(m, op, kept, newest, f)
  {
    hide Step, Uses, Picks;
  }

  lemma AddShape(m: Model, k: nat, v: nat, now: int) returns (kept: seq<Entry>, newest: seq<Entry>, f: seq<nat>)
    requires DistinctKeys(m.entries)
    ensures Shape(m, AddOp(k, v, now), kept, newest, f)
  {
    hide Step, Uses, Picks, Drop, DistinctKeys, Shape, DeadlineOf;
    AddStep(m, k, v, now);
    var es, i := m.entries, IndexOf(m.entries, k);
    newest := [Entry(k, v, DeadlineOf(m.life, now))];
    if i >= 0 {
      f := DropPicks(es, i);
      kept := Drop(es, i);
    } else {
      var n := if m.cap <= |es| && es != [] then 1 else 0;
      f := SuffixPicks(es, n);
      kept := es[n..];
    }
    ShapeOf(m, AddOp(k, v, now), kept, newest, f, k, true);
  }

  lemma ReadShape(m: Model, k: nat, now: int, tracked: bool)
    returns (kept: seq<Entry>, newest: seq<Entry>, f: seq<nat>)
    requires DistinctKeys(m.entries)
    ensures Shape(m, ReadOp(k, now, tracked), kept, newest, f)
  {
    hide Step, Uses, Picks, Drop, DistinctKeys, Shape, Expired;
    ReadStep(m, k, now, tracked);
    var es, i := m.entries, IndexOf(m.entries, k);
    newest := [];
    if i >= 0 && (Expired(es[i].deadline, now) || tracked) {
      f := DropPicks(es, i);
      kept := Drop(es, i);
      if !Expired(es[i].deadline, now) { newest := [es[i]]; }
    } else {
      f := SuffixPicks(es, 0);
      kept := es;
    }
    assert kept + [] == kept;
    ShapeOf(m, ReadOp(k, now, tracked), kept, newest, f, k, newest != []);
  }

  lemma RemoveShape(m: Model, k: nat) returns (kept: seq<Entry>, newest: seq<Entry>, f: seq<nat>)
    requires DistinctKeys(m.entries)
    ensures Shape(m, RemoveOp(k), kept, newest, f)
  {
    hide Step, Uses, Picks, Drop, DistinctKeys, Shape;
    RemoveStep(m, k);
    var es, i := m.entries, IndexOf(m.entries, k);
    newest := [];
    if i >= 0 {
      f := DropPicks(es, i);
      kept := Drop(es, i);
    } else {
      f := SuffixPicks(es, 0);
      kept := es;
    }
    assert kept + [] == kept;
    ShapeOf(m, RemoveOp(k), kept, newest, f, k, false);
  }

  lemma SuffixStep(m: Model, op: Op)
    requires op.PurgeOp? || op.ResizeOp? || op.KeysOp? || op.SetLifeOp?
    ensures var kept := Step(m, op).0.entries;
            |kept| <= |m.entries| && kept == m.entries[|m.entries| - |kept|..]
    ensures forall x :: !Uses(m, op, x)
  {}

  lemma SuffixShape(m: Model, op: Op) returns (kept: seq<Entry>, newest: seq<Entry>, f: seq<nat>)
    requires op.PurgeOp? || op.ResizeOp? || op.KeysOp? || op.SetLifeOp?
    ensures Shape(m, op, kept, newest, f)
  {
    hide Step, Uses, Picks, Shape;
    SuffixStep(m, op);
    kept, newest := Step(m, op).0.entries, [];
    f := SuffixPicks(m.entries, |m.entries| - |kept|);
    assert kept + [] == kept;
    ShapeOf(m, op, kept, newest, f, 0, false);
  }

  lemma StepShape(m: Model, op: Op) returns (kept: seq<Entry>, newest: seq<Entry>, f: seq<nat>)
    requires DistinctKeys(m.entries)
    ensures Shape(m, op, kept, newest, f)
  {
    hide Shape, DistinctKeys;
    match op
    case AddOp(k, v, now) => kept, newest, f := AddShape(m, k, v, now);
    case ReadOp(k, now, tracked) => kept, newest, f := ReadShape(m, k, now, tracked);
    case RemoveOp(k) => kept, newest, f := RemoveShape(m, k);
    case _ => kept, newest, f := SuffixShape(m, op);
  }

  lemma StepDistinct(m: Model, op: Op)
    requires DistinctKeys(m.entries)
    ensures DistinctKeys(Step(m, op).0.entries)
  {
    hide Step, Uses;
    var kept, newest, f := StepShape(m, op);
  }

  lemma StepGood(m: Model, op: Op)
    requires Good(m)
    ensures Good(Step(m, op).0)
  {
    hide DistinctKeys, IndexOf, DeadlineOf, Expired;
    StepDistinct(m, op);
  }

  lemma {:induction false} RunGood(cap: nat, ops: seq<Op>)
    requires 0 < cap
    ensures Good(Run(New(cap), ops))
  {
    if ops != [] {
      RunGood(cap, ops[..|ops| - 1]);
      StepGood(Run(New(cap), ops[..|ops| - 1]), ops[|ops| - 1]);
    }
  }

  // ---- the order is the order of last use ----

  /** The 1-based time of the last use of k in the run, 0 when there is none. */
  function LastUse(m: Model, ops: seq<Op>, k: nat): (t: nat)
    ensures t <= |ops|
  {
    if ops == [] then 0
    else
      var before := ops[..|ops| - 1];
      if Uses(Run(m, before), ops[|ops| - 1], k) then |ops| else LastUse(m, before, k)
  }

  /** Every entry was used, and an older entry was last used strictly before a newer one: the entry
      that `Add` and `Resize` evict is the least recently used. */
  ghost predicate Ordered(es: seq<Entry>, lastUse: nat -> nat) {
    && (forall i :: 0 <= i < |es| ==> 0 < lastUse(es[i].key))
    && (forall i, j :: 0 <= i < j < |es| ==> lastUse(es[i].key) < lastUse(es[j].key))
  }

  function LastUseIn(m: Model, ops: seq<Op>): nat -> nat {
    (k: nat) => LastUse(m, ops, k)
  }

  lemma OrderedStep(es: seq<Entry>, kept: seq<Entry>, newest: seq<Entry>, f: seq<nat>,
                    before: nat -> nat, after: nat -> nat, t: nat)
    requires Ordered(es, before) && Picks(es, kept, f) && |newest| <= 1
    requires forall i :: 0 <= i < |kept| ==> after(kept[i].key) == before(kept[i].key) < t
    requires newest != [] ==> after(newest[0].key) == t > 0
    ensures Ordered(kept + newest, after)
  {}

  lemma LastUseStep(m0: Model, ops: seq<Op>, k: nat)
    requires ops != []
    ensures var before := ops[..|ops| - 1];
            LastUse(m0, ops, k) ==
            if Uses(Run(m0, before), ops[|ops| - 1], k) then |ops| else LastUse(m0, before, k)
  {}

  lemma {:induction false} OrderIsLastUse(cap: nat, ops: seq<Op>)
    requires 0 < cap
    ensures Ordered(Run(New(cap), ops).entries, LastUseIn(New(cap), ops))
  {
    if ops != [] {
      var m0, before, op := New(cap), ops[..|ops| - 1], ops[|ops| - 1];
      OrderIsLastUse(cap, before);
      RunGood(cap, before);
      var m := Run(m0, before);
      var kept, newest, f := StepShape(m, op);
      hide Step, Uses, LastUse, Ordered, Picks;
      forall i | 0 <= i < |kept| ensures LastUse(m0, ops, kept[i].key) == LastUse(m0, before, kept[i].key) {
        LastUseStep(m0, ops, kept[i].key);
      }
      if newest != [] { LastUseStep(m0, ops, newest[0].key); }
      OrderedStep(m.entries, kept, newest, f, LastUseIn(m0, before), LastUseIn(m0, ops), |ops|);
    }
  }
}
