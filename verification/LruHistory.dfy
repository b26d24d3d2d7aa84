/** What the cache of benchmarks/native/lru.c answers, told by the operations and answers before and
    not by the state: which keys are held, with which values and deadlines, and in which order they
    were used. Every answer of every run of module LruModel is proved to be the one told here. */
module LruHistory {
  import opened Sequences
  import opened LruModel

  // ---- what the operations before time n say ----

  /** The last addition of k, -1 when there is none. */
  function LastAdd(ops: seq<Op>, n: nat, k: nat): (j: int)
    requires n <= |ops|
    ensures -1 <= j < n
    ensures j >= 0 ==> ops[j].AddOp? && ops[j].k == k
    ensures forall i :: j < i < n ==> !(ops[i].AddOp? && ops[i].k == k)
  {
    if n == 0 then -1 else if ops[n - 1].AddOp? && ops[n - 1].k == k then n - 1 else LastAdd(ops, n - 1, k)
  }

  /** The lifetime in force: the one set last, 0 at first. */
  function LifeAt(ops: seq<Op>, n: nat): int
    requires n <= |ops|
  {
    if n == 0 then 0 else if ops[n - 1].SetLifeOp? then ops[n - 1].life else LifeAt(ops, n - 1)
  }

  /** The capacity in force: the one set last by a resize that is not refused, cap at first. */
  function CapAt(cap: nat, ops: seq<Op>, n: nat): nat
    requires n <= |ops|
  {
    if n == 0 then cap
    else if ops[n - 1].ResizeOp? && ops[n - 1].cap != 0 then ops[n - 1].cap
    else CapAt(cap, ops, n - 1)
  }

  lemma {:induction false} LifeAtIsLast(ops: seq<Op>, n: nat, j: nat)
    requires j < n <= |ops|
    ensures (forall i :: 0 <= i < n ==> !ops[i].SetLifeOp?) ==> LifeAt(ops, n) == 0
    ensures ops[j].SetLifeOp? && (forall i :: j < i < n ==> !ops[i].SetLifeOp?) ==> LifeAt(ops, n) == ops[j].life
    decreases n
  {
    if n > 1 { LifeAtIsLast(ops, n - 1, if j < n - 1 then j else 0); }
  }

  lemma {:induction false} CapAtIsLast(cap: nat, ops: seq<Op>, n: nat, j: nat)
    requires j < n <= |ops|
    ensures (forall i :: 0 <= i < n ==> !(ops[i].ResizeOp? && ops[i].cap != 0)) ==> CapAt(cap, ops, n) == cap
    ensures ops[j].ResizeOp? && ops[j].cap != 0
            && (forall i :: j < i < n ==> !(ops[i].ResizeOp? && ops[i].cap != 0)) ==>
              CapAt(cap, ops, n) == ops[j].cap
    decreases n
  {
    if n > 1 { CapAtIsLast(cap, ops, n - 1, if j < n - 1 then j else 0); }
  }

  /** The deadline that the addition at time j gave its entry. */
  function DeadlineAt(ops: seq<Op>, j: nat): int
    requires j < |ops| && ops[j].AddOp?
  {
    DeadlineOf(LifeAt(ops, j), ops[j].now)
  }

  /** 0 for an entry that lives for ever, otherwise the time of the addition and the lifetime in
      milliseconds, which C rounds toward zero. */
  lemma DeadlineIs(ops: seq<Op>, j: nat)
    requires j < |ops| && ops[j].AddOp?
    ensures var life, now := LifeAt(ops, j), ops[j].now;
            DeadlineAt(ops, j) ==
            if life == 0 then 0
            else if life > 0 then now + life / 1_000_000 else now - (0 - life) / 1_000_000
  {}

  predicate UsedAt(ops: seq<Op>, outs: seq<Out>, j: nat, k: nat)
    requires j < |ops| == |outs|
  {
    || (ops[j].AddOp? && ops[j].k == k)
    || (ops[j].ReadOp? && ops[j].k == k && ops[j].tracked && outs[j].Value? && outs[j].found)
  }

  /** The last use of k, an addition or a tracked read that found it; -1 when there is none. */
  function LastUsed(ops: seq<Op>, outs: seq<Out>, n: nat, k: nat): (j: int)
    requires n <= |ops| == |outs|
    ensures -1 <= j < n
    ensures j >= 0 ==> UsedAt(ops, outs, j, k)
    ensures forall i :: j < i < n ==> !UsedAt(ops, outs, i, k)
  {
    if n == 0 then -1 else if UsedAt(ops, outs, n - 1, k) then n - 1 else LastUsed(ops, outs, n - 1, k)
  }

  function Added(ops: seq<Op>, n: nat): set<nat>
    requires n <= |ops|
  {
    set i | 0 <= i < n && ops[i].AddOp? :: ops[i].k
  }

  /** k is held: it was added, and nothing since then made it go. */
  ghost predicate Held(ops: seq<Op>, outs: seq<Out>, n: nat, k: nat)
    requires n <= |ops| == |outs|
    decreases 2 * n
  {
    LastAdd(ops, n, k) >= 0 && forall q :: LastAdd(ops, n, k) < q < n ==> !Goes(ops, outs, q, k)
  }

  /** The operation at time q takes out the held key k. */
  ghost predicate Goes(ops: seq<Op>, outs: seq<Out>, q: nat, k: nat)
    requires q < |ops| == |outs|
    decreases 2 * q + 1
  {
    match ops[q]
    case AddOp(x, _, _) => x != k && outs[q] == Evicted(true) && OlderKeys(ops, outs, q, k) == {}
    case ReadOp(x, now, _) => x == k && Late(ops, q, k, now)
    case RemoveOp(x) => x == k
    case PurgeOp => true
    case ResizeOp(_) => outs[q].Resized? && |OlderKeys(ops, outs, q, k)| < outs[q].ev2
    case KeysOp(now) => Late(ops, q, k, now) && forall x :: x in OlderKeys(ops, outs, q, k) ==> Late(ops, q, x, now)
    case SetLifeOp(_) => false
  }

  /** The held keys, and those of them whose last use lies before that of k. */
  ghost function HeldKeys(ops: seq<Op>, outs: seq<Out>, n: nat): set<nat>
    requires n <= |ops| == |outs|
    decreases 2 * n + 1
  {
    set x | x in Added(ops, n) && Held(ops, outs, n, x)
  }

  ghost function OlderKeys(ops: seq<Op>, outs: seq<Out>, n: nat, k: nat): set<nat>
    requires n <= |ops| == |outs|
    decreases 2 * n + 1, 0
  {
    set x | x in Added(ops, n) && Held(ops, outs, n, x) && LastUsed(ops, outs, n, x) < LastUsed(ops, outs, n, k)
  }

  /** The entry last added for k has expired. */
  predicate Late(ops: seq<Op>, n: nat, k: nat, now: int)
    requires n <= |ops|
  {
    var j := LastAdd(ops, n, k);
    j >= 0 && DeadlineAt(ops, j) != 0 && DeadlineAt(ops, j) <= now
  }

  lemma {:induction false} AddedLast(ops: seq<Op>, n: nat, k: nat)
    requires n <= |ops|
    ensures k in Added(ops, n) <==> LastAdd(ops, n, k) >= 0
  {}

  lemma HeldIs(ops: seq<Op>, outs: seq<Out>, n: nat, k: nat)
    requires n <= |ops| == |outs|
    ensures k in HeldKeys(ops, outs, n) <==> Held(ops, outs, n, k)
  {
    AddedLast(ops, n, k);
  }

  /** After an operation k is held when it was just added, or was held and did not go. */
  lemma HeldNext(ops: seq<Op>, outs: seq<Out>, n: nat, k: nat)
    requires n < |ops| == |outs|
    ensures Held(ops, outs, n + 1, k) <==>
            (ops[n].AddOp? && ops[n].k == k) || (Held(ops, outs, n, k) && !Goes(ops, outs, n, k))
  {
    hide Goes, LastAdd;
    assert LastAdd(ops, n + 1, k) == if ops[n].AddOp? && ops[n].k == k then n as int else LastAdd(ops, n, k) by {
      LastAddNext(ops, n, k);
    }
  }

  lemma LastAddNext(ops: seq<Op>, n: nat, k: nat)
    requires n < |ops|
    ensures LastAdd(ops, n + 1, k) == if ops[n].AddOp? && ops[n].k == k then n as int else LastAdd(ops, n, k)
  {}

  // ---- what the operations do to the keys of the sequence ----

  /** k is at index i of es, or nowhere when i < 0. */
  predicate Has(es: seq<Entry>, k: nat) { IndexOf(es, k) >= 0 }

  lemma HasAt(es: seq<Entry>, i: nat)
    requires DistinctKeys(es) && i < |es|
    ensures IndexOf(es, es[i].key) == i
  {
    hide IndexOf;
  }

  lemma HasNot(es: seq<Entry>, k: nat)
    requires forall i :: 0 <= i < |es| ==> es[i].key != k
    ensures !Has(es, k)
  {
    hide IndexOf;
  }

  lemma DropHas(es: seq<Entry>, d: nat, k: nat)
    requires DistinctKeys(es) && d < |es|
    ensures Has(Drop(es, d), k) <==> Has(es, k) && k != es[d].key
  {
    hide IndexOf;
    var r, i := Drop(es, d), IndexOf(es, k);
    assert forall j :: 0 <= j < |r| ==> r[j] == es[if j < d then j else j + 1];
    if i >= 0 && i != d { assert r[if i < d then i else i - 1].key == k; }
    if Has(r, k) { var j := IndexOf(r, k); HasAt(es, if j < d then j else j + 1); }
  }

  lemma SuffixHas(es: seq<Entry>, c: nat, k: nat)
    requires DistinctKeys(es) && c <= |es|
    ensures Has(es[c..], k) <==> IndexOf(es, k) >= c
  {
    hide IndexOf;
    var r, i := es[c..], IndexOf(es, k);
    if i >= c { assert r[i - c].key == k; }
    if Has(r, k) { HasAt(es, c + IndexOf(r, k)); }
  }

  lemma SnocHas(es: seq<Entry>, e: Entry, k: nat)
    ensures Has(es + [e], k) <==> Has(es, k) || k == e.key
  {
    hide IndexOf;
    var r := es + [e];
    if Has(es, k) { assert r[IndexOf(es, k)].key == k; }
    if k == e.key { assert r[|es|].key == k; }
    if Has(r, k) { assert r[IndexOf(r, k)].key == k; }
  }

  /** The keys after an operation, told by the place of the key and of its entry's expiry before. */
  ghost predicate Stays(m: Model, op: Op, k: nat) {
    var i := IndexOf(m.entries, k);
    if op.AddOp? && op.k == k then true
    else
      && i >= 0
      && match op
         case AddOp(x, _, _) => !(Step(m, op).1 == Evicted(true) && i == 0)
         case ReadOp(x, now, _) => !(x == k && Expired(m.entries[i].deadline, now))
         case RemoveOp(x) => x != k
         case PurgeOp => false
         case ResizeOp(_) => !(i < Step(m, op).1.ev2)
         case KeysOp(now) => exists j :: 0 <= j <= i && !Expired(m.entries[j].deadline, now)
         case SetLifeOp(_) => true
  }

  lemma AddStays(m: Model, op: Op, k: nat)
    requires Good(m) && op.AddOp?
    ensures Has(Step(m, op).0.entries, k) <==> Stays(m, op, k)
  {
    hide IndexOf, DeadlineOf, Step, DistinctKeys, Drop, Has;
    AddStep(m, op.k, op.v, op.now);
    AddAnswer(m, op);
    var es, i, e := m.entries, IndexOf(m.entries, op.k), Entry(op.k, op.v, DeadlineOf(m.life, op.now));
    if i >= 0 {
      DropHas(es, i, k);
      SnocHas(Drop(es, i), e, k);
    } else {
      var c := if m.cap <= |es| && es != [] then 1 else 0;
      SuffixHas(es, c, k);
      SnocHas(es[c..], e, k);
    }
    HasIs(es, k); HasIs(es, op.k);
  }

  lemma HasIs(es: seq<Entry>, k: nat)
    ensures Has(es, k) <==> IndexOf(es, k) >= 0
  {}

  lemma AddAnswer(m: Model, op: Op)
    requires Good(m) && op.AddOp?
    ensures Step(m, op).1 == Evicted(IndexOf(m.entries, op.k) < 0 && |m.entries| == m.cap)
  {
    hide IndexOf, DeadlineOf, DistinctKeys;
  }

  lemma ReadStays(m: Model, op: Op, k: nat)
    requires Good(m) && op.ReadOp?
    ensures Has(Step(m, op).0.entries, k) <==> Stays(m, op, k)
  {
    hide IndexOf, DeadlineOf, Step, DistinctKeys, Drop, Has, Expired;
    ReadStep(m, op.k, op.now, op.tracked);
    var es, i := m.entries, IndexOf(m.entries, op.k);
    HasIs(es, k); HasIs(es, op.k);
    if i >= 0 {
      DropHas(es, i, k);
      SnocHas(Drop(es, i), es[i], k);
      assert Drop(es, i) + [] == Drop(es, i);
    }
  }

  lemma RemoveStays(m: Model, op: Op, k: nat)
    requires Good(m) && op.RemoveOp?
    ensures Has(Step(m, op).0.entries, k) <==> Stays(m, op, k)
  {
    hide IndexOf, DeadlineOf, Step, DistinctKeys, Drop, Has;
    RemoveStep(m, op.k);
    var es, i := m.entries, IndexOf(m.entries, op.k);
    HasIs(es, k); HasIs(es, op.k);
    if i >= 0 { DropHas(es, i, k); }
  }

  lemma SuffixStays(m: Model, op: Op, k: nat)
    requires Good(m) && (op.PurgeOp? || op.ResizeOp? || op.KeysOp? || op.SetLifeOp?)
    ensures Has(Step(m, op).0.entries, k) <==> Stays(m, op, k)
  {
    hide IndexOf, DistinctKeys, Expired, LruModel.KeysOf, ExpiredPrefix;
    var es := m.entries;
    HasIs(es, k);
    match op
    case PurgeOp => HasNot([], k);
    case ResizeOp(cap) => SuffixHas(es, |es| - |Step(m, op).0.entries|, k);
    case KeysOp(now) => SuffixHas(es, ExpiredPrefix(es, now), k);
    case SetLifeOp(_) =>
  }

  lemma StepStays(m: Model, op: Op, k: nat)
    requires Good(m)
    ensures Has(Step(m, op).0.entries, k) <==> Stays(m, op, k)
  {
    hide Step, Stays, Has, Good;
    match op
    case AddOp(_, _, _) => AddStays(m, op, k);
    case ReadOp(_, _, _) => ReadStays(m, op, k);
    case RemoveOp(_) => RemoveStays(m, op, k);
    case _ => SuffixStays(m, op, k);
  }

  // ---- the sequence holds what the history says ----

  function At(cap: nat, ops: seq<Op>, n: nat): Model
    requires n <= |ops|
  {
    Run(New(cap), ops[..n])
  }

  lemma AtNext(cap: nat, ops: seq<Op>, n: nat)
    requires n < |ops|
    ensures At(cap, ops, n + 1) == Step(At(cap, ops, n), ops[n]).0
  {
    hide Step;
    RunSnoc(New(cap), ops, n);
  }

  lemma {:induction false} OutAt(cap: nat, ops: seq<Op>, n: nat)
    requires n < |ops|
    ensures Outs(New(cap), ops)[n] == Step(At(cap, ops, n), ops[n]).1
    decreases |ops|
  {
    hide Step;
    var before := ops[..|ops| - 1];
    if n < |before| {
      OutAt(cap, before, n);
      assert before[..n] == ops[..n] && before[n] == ops[n];
    }
  }

  lemma UsesIs(cap: nat, ops: seq<Op>, j: nat, k: nat)
    requires j < |ops|
    ensures Uses(At(cap, ops, j), ops[j], k) <==> UsedAt(ops, Outs(New(cap), ops), j, k)
  {
    hide Outs, At, LruModel.Read, LruModel.Add, LruModel.Remove, LruModel.Purge, LruModel.Resize, LruModel.Keys;
    OutAt(cap, ops, j);
  }

  lemma {:induction false} LastUseIs(cap: nat, ops: seq<Op>, n: nat, k: nat)
    requires n <= |ops|
    ensures LastUse(New(cap), ops[..n], k) == LastUsed(ops, Outs(New(cap), ops), n, k) + 1
  {
    hide Outs, Uses, UsedAt, Run;
    if n > 0 {
      LastUseIs(cap, ops, n - 1, k);
      UsesIs(cap, ops, n - 1, k);
      assert ops[..n][..n - 1] == ops[..n - 1];
      LastUseStep(New(cap), ops[..n], k);
    }
  }

  /** The sequence holds exactly the held keys, each with what was added last, in the order of use. */
  ghost predicate Tracks(cap: nat, ops: seq<Op>, n: nat)
    requires n <= |ops|
  {
    var m, outs := At(cap, ops, n), Outs(New(cap), ops);
    && m.life == LifeAt(ops, n) && m.cap == CapAt(cap, ops, n)
    && (forall k :: Held(ops, outs, n, k) <==> Has(m.entries, k))
    && (forall i :: 0 <= i < |m.entries| ==> Told(ops, n, m.entries[i]))
    && InOrder(ops, outs, n, m.entries)
  }

  predicate Told(ops: seq<Op>, n: nat, e: Entry)
    requires n <= |ops|
  {
    var j := LastAdd(ops, n, e.key);
    j >= 0 && e.val == ops[j].v && e.deadline == DeadlineAt(ops, j)
  }

  ghost predicate InOrder(ops: seq<Op>, outs: seq<Out>, n: nat, es: seq<Entry>)
    requires n <= |ops| == |outs|
  {
    forall i, j :: 0 <= i < j < |es| ==> LastUsed(ops, outs, n, es[i].key) < LastUsed(ops, outs, n, es[j].key)
  }

  lemma OrderTold(cap: nat, ops: seq<Op>, n: nat)
    requires 0 < cap && n <= |ops|
    ensures InOrder(ops, Outs(New(cap), ops), n, At(cap, ops, n).entries)
  {
    hide Outs, LastUsed, LastUse, Run;
    OrderIsLastUse(cap, ops[..n]);
    var es := At(cap, ops, n).entries;
    forall i | 0 <= i < |es|
      ensures LastUse(New(cap), ops[..n], es[i].key) == LastUsed(ops, Outs(New(cap), ops), n, es[i].key) + 1
    {
      LastUseIs(cap, ops, n, es[i].key);
    }
  }

  /** The keys of the first i entries. */
  function FirstKeys(es: seq<Entry>, i: nat): set<nat>
    requires i <= |es|
  {
    if i == 0 then {} else FirstKeys(es, i - 1) + {es[i - 1].key}
  }

  lemma {:induction false} InFirst(es: seq<Entry>, i: nat, x: nat)
    requires i <= |es| && DistinctKeys(es)
    ensures x in FirstKeys(es, i) <==> 0 <= IndexOf(es, x) < i
  {
    hide IndexOf, DistinctKeys;
    if i > 0 {
      InFirst(es, i - 1, x);
      HasAt(es, i - 1);
    }
  }

  lemma {:induction false} FirstSize(es: seq<Entry>, i: nat)
    requires i <= |es| && DistinctKeys(es)
    ensures |FirstKeys(es, i)| == i
  {
    hide IndexOf, DistinctKeys;
    if i > 0 {
      FirstSize(es, i - 1);
      HasAt(es, i - 1);
      InFirst(es, i - 1, es[i - 1].key);
      assert |FirstKeys(es, i - 1) + {es[i - 1].key}| == i;
    }
  }

  lemma FirstKeysAre(es: seq<Entry>, i: nat)
    requires i <= |es| && DistinctKeys(es)
    ensures forall x :: x in FirstKeys(es, i) <==> 0 <= IndexOf(es, x) < i
    ensures |FirstKeys(es, i)| == i
  {
    hide IndexOf, DistinctKeys, FirstKeys;
    FirstSize(es, i);
    forall x ensures x in FirstKeys(es, i) <==> 0 <= IndexOf(es, x) < i { InFirst(es, i, x); }
  }

  lemma InOrderAt(ops: seq<Op>, outs: seq<Out>, n: nat, es: seq<Entry>, x: nat, k: nat)
    requires n <= |ops| == |outs| && InOrder(ops, outs, n, es) && Has(es, x) && Has(es, k)
    ensures LastUsed(ops, outs, n, x) < LastUsed(ops, outs, n, k) <==> IndexOf(es, x) < IndexOf(es, k)
  {
    hide LastUsed, IndexOf;
    var i, j := IndexOf(es, x), IndexOf(es, k);
    assert es[i].key == x && es[j].key == k;
  }

  /** The keys used before k are those of the entries before k's. */
  lemma OlderAre(cap: nat, ops: seq<Op>, n: nat, k: nat)
    requires n <= |ops| && Tracks(cap, ops, n) && Good(At(cap, ops, n)) && Has(At(cap, ops, n).entries, k)
    ensures OlderKeys(ops, Outs(New(cap), ops), n, k)
            == FirstKeys(At(cap, ops, n).entries, IndexOf(At(cap, ops, n).entries, k))
  {
    hide Held, LastUsed, Added, Outs, At, IndexOf, FirstKeys, InOrder;
    var es, outs := At(cap, ops, n).entries, Outs(New(cap), ops);
    var i := IndexOf(es, k);
    FirstKeysAre(es, i);
    forall x ensures x in OlderKeys(ops, outs, n, k) <==> x in FirstKeys(es, i) {
      AddedHeld(ops, outs, n, x);
      if Has(es, x) { InOrderAt(ops, outs, n, es, x, k); }
    }
  }

  lemma AddedHeld(ops: seq<Op>, outs: seq<Out>, n: nat, k: nat)
    requires n <= |ops| == |outs|
    ensures Held(ops, outs, n, k) ==> k in Added(ops, n)
  {
    hide Goes, LastAdd, Added;
    AddedLast(ops, n, k);
  }

  lemma LateIs(ops: seq<Op>, n: nat, e: Entry, now: int)
    requires n <= |ops| && Told(ops, n, e)
    ensures Late(ops, n, e.key, now) <==> Expired(e.deadline, now)
  {}

  /** k and all keys used before it have expired when the entries up to k's have. */
  lemma LatePrefix(ops: seq<Op>, n: nat, es: seq<Entry>, k: nat, now: int)
    requires n <= |ops| && DistinctKeys(es) && Has(es, k) && forall i :: 0 <= i < |es| ==> Told(ops, n, es[i])
    ensures (Late(ops, n, k, now) && forall x :: x in FirstKeys(es, IndexOf(es, k)) ==> Late(ops, n, x, now)) <==>
            forall j :: 0 <= j <= IndexOf(es, k) ==> Expired(es[j].deadline, now)
  {
    hide IndexOf, Told, Late, Expired, DistinctKeys, FirstKeys;
    var i := IndexOf(es, k);
    FirstKeysAre(es, i);
    forall j | 0 <= j < |es|
      ensures IndexOf(es, es[j].key) == j && (Late(ops, n, es[j].key, now) <==> Expired(es[j].deadline, now))
    {
      HasAt(es, j);
      LateIs(ops, n, es[j], now);
    }
  }

  /** What takes a key out of the history takes it out of the sequence. */
  lemma GoesIs(cap: nat, ops: seq<Op>, n: nat, k: nat)
    requires 0 < cap && n < |ops| && Tracks(cap, ops, n) && Has(At(cap, ops, n).entries, k)
    requires !(ops[n].AddOp? && ops[n].k == k)
    ensures Goes(ops, Outs(New(cap), ops), n, k) <==> !Stays(At(cap, ops, n), ops[n], k)
  {
    hide Held, LastUsed, Added, Outs, At, IndexOf, Step, OlderKeys, Late, Good, Expired, FirstKeys, DistinctKeys;
    hide Told, InOrder;
    GoodAt(cap, ops, n);
    OutAt(cap, ops, n);
    OlderAre(cap, ops, n, k);
    var m := At(cap, ops, n);
    var i := IndexOf(m.entries, k);
    FirstKeysAre(m.entries, i);
    match ops[n]
    case ReadOp(x, now, _) => LateIs(ops, n, m.entries[i], now);
    case KeysOp(now) => LatePrefix(ops, n, m.entries, k, now);
    case ResizeOp(cap') => ResizeAnswer(m, cap');
    case _ =>
  }

  lemma ResizeAnswer(m: Model, cap: nat)
    ensures Step(m, ResizeOp(cap)).1 ==
            Resized(cap != 0, if cap != 0 && cap < |m.entries| then |m.entries| - cap else 0)
  {}

  lemma GoodAt(cap: nat, ops: seq<Op>, n: nat)
    requires 0 < cap && n <= |ops|
    ensures var m := At(cap, ops, n); Good(m) && DistinctKeys(m.entries) && |m.entries| <= m.cap
  {
    RunGood(cap, ops[..n]);
  }

  /** The entries after an operation were there before, or were just added. */
  lemma EntriesFrom(m: Model, op: Op, e: Entry)
    requires Good(m) && e in Step(m, op).0.entries
    ensures if op.AddOp? && op.k == e.key then e == Entry(op.k, op.v, DeadlineOf(m.life, op.now)) else e in m.entries
  {
    hide Step, Uses, DeadlineOf, IndexOf, Expired, Drop;
    var es, r := m.entries, Step(m, op).0.entries;
    match op
    case AddOp(k, v, now) =>
      AddStep(m, k, v, now);
      if IndexOf(es, k) >= 0 { DropFrom(es, IndexOf(es, k)); }
    case ReadOp(k, now, tracked) =>
      ReadStep(m, k, now, tracked);
      if IndexOf(es, k) >= 0 { DropFrom(es, IndexOf(es, k)); }
    case RemoveOp(k) =>
      RemoveStep(m, k);
      if IndexOf(es, k) >= 0 { DropFrom(es, IndexOf(es, k)); }
    case _ =>
      SuffixStep(m, op);
  }

  lemma DropFrom(es: seq<Entry>, d: nat)
    requires d < |es| && DistinctKeys(es)
    ensures forall e :: e in Drop(es, d) ==> e in es && e.key != es[d].key
  {}

  lemma SettingsNext(m: Model, op: Op)
    ensures Step(m, op).0.life == if op.SetLifeOp? then op.life else m.life
    ensures Step(m, op).0.cap == if op.ResizeOp? && op.cap != 0 then op.cap else m.cap
  {
    hide IndexOf, DeadlineOf, Expired, ExpiredPrefix;
  }

  lemma ToldNext(ops: seq<Op>, n: nat, e: Entry, life: int)
    requires n < |ops| && life == LifeAt(ops, n)
    requires if ops[n].AddOp? && ops[n].k == e.key then e == Entry(ops[n].k, ops[n].v, DeadlineOf(life, ops[n].now))
             else Told(ops, n, e)
    ensures Told(ops, n + 1, e)
  {
    hide LastAdd, DeadlineOf;
    LastAddNext(ops, n, e.key);
  }

  lemma {:induction false} HistoryTold(cap: nat, ops: seq<Op>, n: nat)
    requires 0 < cap && n <= |ops|
    ensures Tracks(cap, ops, n)
    decreases n
  {
    hide Held, Outs, Step, Good, Has, Told, InOrder, LastAdd, Stays, Goes;
    if n == 0 {
      TracksNone(cap, ops);
    } else {
      var o := n - 1;
      HistoryTold(cap, ops, o);
      OrderTold(cap, ops, n);
      GoodAt(cap, ops, o);
      AtNext(cap, ops, o);
      var m, m', outs := At(cap, ops, o), At(cap, ops, n), Outs(New(cap), ops);
      SettingsNext(m, ops[o]);
      forall k ensures Held(ops, outs, n, k) <==> Has(m'.entries, k) {
        HeldNext(ops, outs, o, k);
        StepStays(m, ops[o], k);
        StaysHas(m, ops[o], k);
        if Has(m.entries, k) && !(ops[o].AddOp? && ops[o].k == k) { GoesIs(cap, ops, o, k); }
      }
      forall i | 0 <= i < |m'.entries| ensures Told(ops, n, m'.entries[i]) {
        EntriesFrom(m, ops[o], m'.entries[i]);
        ToldNext(ops, o, m'.entries[i], m.life);
      }
    }
  }

  lemma StaysHas(m: Model, op: Op, k: nat)
    ensures op.AddOp? && op.k == k ==> Stays(m, op, k)
    ensures !(op.AddOp? && op.k == k) && Stays(m, op, k) ==> Has(m.entries, k)
  {
    hide IndexOf, Step;
  }

  lemma TracksNone(cap: nat, ops: seq<Op>)
    requires 0 < cap
    ensures Tracks(cap, ops, 0)
  {
    hide Outs;
  }

  // ---- every answer of every run ----

  /** The held keys are those of the sequence. */
  lemma HeldAre(cap: nat, ops: seq<Op>, n: nat)
    requires 0 < cap && n <= |ops|
    ensures var es, outs := At(cap, ops, n).entries, Outs(New(cap), ops);
            && |HeldKeys(ops, outs, n)| == |es|
            && forall k :: Held(ops, outs, n, k) <==> IndexOf(es, k) >= 0
  {
    hide Outs, Held, IndexOf, Told, InOrder, At, FirstKeys, DistinctKeys, Good, Added;
    HistoryTold(cap, ops, n);
    GoodAt(cap, ops, n);
    var es, outs := At(cap, ops, n).entries, Outs(New(cap), ops);
    FirstKeysAre(es, |es|);
    forall k ensures k in HeldKeys(ops, outs, n) <==> k in FirstKeys(es, |es|) { AddedHeld(ops, outs, n, k); }
    assert HeldKeys(ops, outs, n) == FirstKeys(es, |es|);
  }

  /** No more keys are held than the capacity in force. */
  lemma HeldFit(cap: nat, ops: seq<Op>, n: nat)
    requires 0 < cap && n <= |ops|
    ensures |HeldKeys(ops, Outs(New(cap), ops), n)| <= CapAt(cap, ops, n)
  {
    hide Outs, Held, Has, Told, InOrder, At, HeldKeys, Good;
    HeldAre(cap, ops, n);
    HistoryTold(cap, ops, n);
    GoodAt(cap, ops, n);
  }

  /** What the entry of a held key holds. */
  lemma EntryTold(cap: nat, ops: seq<Op>, n: nat, k: nat)
    requires 0 < cap && n <= |ops|
    ensures var es, j := At(cap, ops, n).entries, LastAdd(ops, n, k);
            IndexOf(es, k) >= 0 ==>
              j >= 0 && es[IndexOf(es, k)].val == ops[j].v && es[IndexOf(es, k)].deadline == DeadlineAt(ops, j)
  {
    hide Outs, Held, Has, InOrder, At, IndexOf, LastAdd, DeadlineAt;
    HistoryTold(cap, ops, n);
  }

  /** A read finds k exactly when k is held and its entry lives for ever or its deadline is still to
      come, and then answers the value of its last addition. */
  lemma ReadAnswers(cap: nat, ops: seq<Op>, n: nat)
    requires 0 < cap && n < |ops| && ops[n].ReadOp?
    ensures var outs, k, j := Outs(New(cap), ops), ops[n].k, LastAdd(ops, n, ops[n].k);
            var found := Held(ops, outs, n, k) && (DeadlineAt(ops, j) == 0 || DeadlineAt(ops, j) > ops[n].now);
            outs[n] == Value(if found then ops[j].v else 0, found)
  {
    hide Outs, At, IndexOf, LastAdd, DeadlineAt, Goes;
    OutAt(cap, ops, n);
    HeldAre(cap, ops, n);
    EntryTold(cap, ops, n, ops[n].k);
  }

  /** A removal finds k exactly when k is held, expired or not. */
  lemma RemoveAnswers(cap: nat, ops: seq<Op>, n: nat)
    requires 0 < cap && n < |ops| && ops[n].RemoveOp?
    ensures var outs, j := Outs(New(cap), ops), LastAdd(ops, n, ops[n].k);
            var found := Held(ops, outs, n, ops[n].k);
            outs[n] == Value(if found then ops[j].v else 0, found)
  {
    hide Outs, At, IndexOf, LastAdd, DeadlineAt, Goes;
    OutAt(cap, ops, n);
    HeldAre(cap, ops, n);
    EntryTold(cap, ops, n, ops[n].k);
  }

  /** An addition evicts exactly when its key is new and as many keys are held as there is room for. */
  lemma AddAnswers(cap: nat, ops: seq<Op>, n: nat)
    requires 0 < cap && n < |ops| && ops[n].AddOp?
    ensures var outs := Outs(New(cap), ops);
            outs[n] == Evicted(!Held(ops, outs, n, ops[n].k) && |HeldKeys(ops, outs, n)| == CapAt(cap, ops, n))
  {
    hide Outs, At, IndexOf, Held, Step, Good, HeldKeys, Told, InOrder, Has;
    OutAt(cap, ops, n);
    GoodAt(cap, ops, n);
    AddAnswer(At(cap, ops, n), ops[n]);
    HeldAre(cap, ops, n);
    HistoryTold(cap, ops, n);
  }

  /** A purge answers how many keys were held; a resize to 0 is refused, any other one answers how many
      of them are over the new capacity. */
  lemma CountAnswers(cap: nat, ops: seq<Op>, n: nat)
    requires 0 < cap && n < |ops|
    ensures var outs := Outs(New(cap), ops);
            var size := |HeldKeys(ops, outs, n)|;
            && (ops[n].PurgeOp? ==> outs[n] == Count(size))
            && (ops[n].ResizeOp? ==>
                  outs[n] == Resized(ops[n].cap > 0, if 0 < ops[n].cap < size then size - ops[n].cap else 0))
            && (ops[n].SetLifeOp? ==> outs[n] == Done)
  {
    hide Outs, At, HeldKeys;
    OutAt(cap, ops, n);
    HeldAre(cap, ops, n);
  }

  /** A listing answers the keys still held afterwards, each once, in the order of their last uses. */
  lemma KeysAnswers(cap: nat, ops: seq<Op>, n: nat)
    requires 0 < cap && n < |ops| && ops[n].KeysOp?
    ensures var outs := Outs(New(cap), ops);
            && outs[n].KeyList?
            && (forall k :: k in outs[n].ks <==> Held(ops, outs, n + 1, k))
            && forall i, j :: 0 <= i < j < |outs[n].ks| ==>
                 LastUsed(ops, outs, n + 1, outs[n].ks[i]) < LastUsed(ops, outs, n + 1, outs[n].ks[j])
  {
    hide Outs, At, IndexOf, Held, LastUsed, Told;
    OutAt(cap, ops, n);
    AtNext(cap, ops, n);
    HistoryTold(cap, ops, n + 1);
    var outs, es := Outs(New(cap), ops), At(cap, ops, n + 1).entries;
    ListingIs(At(cap, ops, n), ops[n].now);
    forall k ensures k in outs[n].ks <==> Has(es, k) {
      if Has(es, k) { assert outs[n].ks[IndexOf(es, k)] == k; }
    }
  }

  lemma ListingIs(m: Model, now: int)
    ensures var (m', o) := Step(m, KeysOp(now));
            o.KeyList? && |o.ks| == |m'.entries| && forall i :: 0 <= i < |o.ks| ==> o.ks[i] == m'.entries[i].key
  {
    hide ExpiredPrefix;
  }

  /** The metrics: all restart with a purge; otherwise an addition counts as an insertion, an evicted
      entry as an eviction, the tracked reads as hits or misses by what they found, and the keys
      that reads, removals and listings take out as removals. */
  lemma MetricsAnswer(cap: nat, ops: seq<Op>, n: nat)
    requires 0 < cap && n < |ops|
    ensures var a, b := At(cap, ops, n).metrics, At(cap, ops, n + 1).metrics;
            var outs, op := Outs(New(cap), ops), ops[n];
            var out, lost := outs[n], |HeldKeys(ops, outs, n)| - |HeldKeys(ops, outs, n + 1)|;
            if op.PurgeOp? then b == Metrics(0, 0, 0, 0, 0, 0)
            else
              && b.inserts == a.inserts + (if op.AddOp? then 1 else 0)
              && b.hits == a.hits + (if op.ReadOp? && op.tracked && out.Value? && out.found then 1 else 0)
              && b.misses == a.misses + (if op.ReadOp? && op.tracked && out.Value? && !out.found then 1 else 0)
              && b.evictions == a.evictions + (if out == Evicted(true) then 1 else if out.Resized? then out.ev2 else 0)
              && b.removals == a.removals + (if op.ReadOp? || op.RemoveOp? || op.KeysOp? then lost else 0)
  {
    hide Outs, At, HeldKeys;
    OutAt(cap, ops, n);
    AtNext(cap, ops, n);
    HeldAre(cap, ops, n); HeldAre(cap, ops, n + 1);
    GoodAt(cap, ops, n);
    MetricsStep(At(cap, ops, n), ops[n]);
  }

  lemma MetricsStep(m: Model, op: Op)
    requires Good(m)
    ensures var a, (m', out) := m.metrics, Step(m, op);
            var b, lost := m'.metrics, |m.entries| - |m'.entries|;
            && (op.ReadOp? || op.RemoveOp? ==> out.Value?) && (op.ResizeOp? ==> out.Resized?)
            && if op.PurgeOp? then b == Metrics(0, 0, 0, 0, 0, 0)
               else
                 && b.inserts == a.inserts + (if op.AddOp? then 1 else 0)
                 && b.hits == a.hits + (if op.ReadOp? && op.tracked && out.Value? && out.found then 1 else 0)
                 && b.misses == a.misses + (if op.ReadOp? && op.tracked && out.Value? && !out.found then 1 else 0)
                 && b.evictions ==
                    a.evictions + (if out == Evicted(true) then 1 else if out.Resized? then out.ev2 else 0)
                 && b.removals == a.removals + (if op.ReadOp? || op.RemoveOp? || op.KeysOp? then lost else 0)
  {
    hide IndexOf, DeadlineOf, DistinctKeys, ExpiredPrefix, Expired;
  }

  lemma NothingCounted(cap: nat, ops: seq<Op>)
    ensures At(cap, ops, 0) == Model(cap, 0, [], Metrics(0, 0, 0, 0, 0, 0))
  {}
}
