/** Whole runs of the list operations by handle (benchmarks/native/doubly_linked_list.c:16-88): a
    handle answers exactly from its insertion to its removal, whatever happens to its slot, and no
    handle is given out twice. */
module DListRuns {
  import opened Sequences
  import opened Threads
  import opened DList

  datatype Op = PushFront(x: nat) | PushBack(x: nat) | InsertBeside(h: Handle, x: nat, after: bool)
              | RemoveBy(h: Handle) | Get(h: Handle) | Set(h: Handle, x: nat) | Neighbour(h: Handle, forward: bool)

  datatype Out = Given(h: Handle) | Removed(v: nat) | Got(v: nat) | Stored | Adjacent(h: Handle) | NoNeighbour | Stale

  datatype Pair = Pair(h: Handle, v: nat)

  // ---- the observable behaviour ----

  /** The place of a handle, |m| when it is not there. */
  function Place(m: seq<Pair>, h: Handle): (i: nat)
    ensures i <= |m| && (i < |m| ==> m[i].h == h)
    ensures forall j :: 0 <= j < i ==> m[j].h != h
  {
    if m == [] then 0 else if m[0].h == h then 0 else
    var i := Place(m[1..], h);
    assert forall j :: 0 <= j < i ==> m[j + 1].h == m[1..][j].h;
    i + 1
  }

  /** The list after an operation that answered out. */
  function After1(m: seq<Pair>, op: Op, out: Out): seq<Pair> {
    match op
    case PushFront(x) => if out.Given? then Put(m, 0, Pair(out.h, x)) else m
    case PushBack(x) => if out.Given? then Put(m, |m|, Pair(out.h, x)) else m
    case InsertBeside(h, x, after) =>
      var i := Place(m, h);
      if i < |m| && out.Given? then Put(m, if after then i + 1 else i, Pair(out.h, x)) else m
    case RemoveBy(h) => var i := Place(m, h); if i < |m| then Drop(m, i) else m
    case Get(h) => m
    case Set(h, x) => var i := Place(m, h); if i < |m| then m[i := Pair(h, x)] else m
    case Neighbour(h, forward) => m
  }

  /** The answer about the neighbour of place i. */
  function Beyond(m: seq<Pair>, i: nat, forward: bool): Out
    requires i < |m|
  {
    if (if forward then i + 1 == |m| else i == 0) then NoNeighbour
    else Adjacent(m[if forward then i + 1 else i - 1].h)
  }

  /** What an operation may answer: a new handle where it inserts, the handle's own value or
      neighbour where the handle is in the list, and stale otherwise. */
  predicate Allowed(m: seq<Pair>, issued: set<Handle>, op: Op, out: Out) {
    match op
    case PushFront(x) => out.Given? && out.h !in issued
    case PushBack(x) => out.Given? && out.h !in issued
    case InsertBeside(h, x, after) => if Place(m, h) < |m| then out.Given? && out.h !in issued else out == Stale
    case RemoveBy(h) => var i := Place(m, h); out == if i < |m| then Removed(m[i].v) else Stale
    case Get(h) => var i := Place(m, h); out == if i < |m| then Got(m[i].v) else Stale
    case Set(h, x) => out == if Place(m, h) < |m| then Stored else Stale
    case Neighbour(h, forward) => var i := Place(m, h); out == if i < |m| then Beyond(m, i, forward) else Stale
  }

  /** The operations that take a slot: only these can meet a full arena. */
  predicate Inserts(m: seq<Pair>, op: Op) {
    op.PushFront? || op.PushBack? || (op.InsertBeside? && Place(m, op.h) < |m|)
  }

  /** The operations on the node that a handle names. */
  predicate By(op: Op, h: Handle) {
    !op.PushFront? && !op.PushBack? && op.h == h
  }

  function IssuedBy(outs: seq<Out>): set<Handle> {
    set o | o in outs && o.Given? :: o.h
  }

  function ListAfter(ops: seq<Op>, outs: seq<Out>): seq<Pair>
    requires |ops| == |outs|
    decreases |ops|
  {
    if ops == [] then [] else
    var n := |ops| - 1;
    After1(ListAfter(ops[..n], outs[..n]), ops[n], outs[n])
  }

  /** Every answer of the run is an allowed one. */
  ghost predicate Honest(ops: seq<Op>, outs: seq<Out>)
    requires |ops| == |outs|
    decreases |ops|
  {
    ops != [] ==>
      var n := |ops| - 1;
      && Honest(ops[..n], outs[..n])
      && Allowed(ListAfter(ops[..n], outs[..n]), IssuedBy(outs[..n]), ops[n], outs[n])
  }

  ghost predicate Has(m: seq<Pair>, h: Handle) {
    exists i :: 0 <= i < |m| && m[i].h == h
  }

  /** The listed handles are distinct and were given out. */
  ghost predicate Sound(m: seq<Pair>, issued: set<Handle>) {
    && (forall i :: 0 <= i < |m| ==> m[i].h in issued)
    && (forall i, j :: 0 <= i < j < |m| ==> m[i].h != m[j].h)
  }

  lemma PutSound(m: seq<Pair>, k: nat, p: Pair, issued: set<Handle>)
    requires Sound(m, issued) && k <= |m| && p.h !in issued
    ensures Sound(Put(m, k, p), issued + {p.h})
    ensures forall h :: Has(Put(m, k, p), h) ==> Has(m, h) || h == p.h
  {
    var r := Put(m, k, p);
    assert forall i :: 0 <= i < |r| ==> r[i] == if i < k then m[i] else if i == k then p else m[i - 1];
  }

  lemma DropSound(m: seq<Pair>, k: nat, issued: set<Handle>)
    requires Sound(m, issued) && k < |m|
    ensures Sound(Drop(m, k), issued) && !Has(Drop(m, k), m[k].h)
    ensures forall h :: Has(Drop(m, k), h) ==> Has(m, h)
  {
    var r := Drop(m, k);
    assert forall i :: 0 <= i < |r| ==> r[i] == if i < k then m[i] else m[i + 1];
  }

  lemma SetSound(m: seq<Pair>, k: nat, x: nat, issued: set<Handle>)
    requires Sound(m, issued) && k < |m|
    ensures Sound(m[k := Pair(m[k].h, x)], issued)
    ensures forall h :: Has(m[k := Pair(m[k].h, x)], h) ==> Has(m, h)
  {
    var r := m[k := Pair(m[k].h, x)];
    assert forall i :: 0 <= i < |r| ==> r[i].h == m[i].h;
  }

  /** A step lists no handle that it did not list before, except the new one it answers. */
  lemma StepSound(m: seq<Pair>, issued: set<Handle>, op: Op, out: Out)
    requires Sound(m, issued) && Allowed(m, issued, op, out)
    ensures Sound(After1(m, op, out), issued + (if out.Given? then {out.h} else {}))
    ensures forall h :: Has(After1(m, op, out), h) ==> Has(m, h) || (out.Given? && h == out.h)
    ensures op.RemoveBy? ==> !Has(After1(m, op, out), op.h)
  {
    hide Sound, Put, Drop;
    assert issued + {} == issued;
    match op
    case PushFront(x) => PutSound(m, 0, Pair(out.h, x), issued);
    case PushBack(x) => PutSound(m, |m|, Pair(out.h, x), issued);
    case InsertBeside(h, x, after) =>
      var i := Place(m, h);
      if i < |m| { PutSound(m, if after then i + 1 else i, Pair(out.h, x), issued); }
    case RemoveBy(h) =>
      var i := Place(m, h);
      if i < |m| { DropSound(m, i, issued); }
    case Get(h) =>
    case Set(h, x) =>
      var i := Place(m, h);
      if i < |m| { SetSound(m, i, x, issued); }
    case Neighbour(h, forward) =>
  }

  lemma {:induction false} RunSound(ops: seq<Op>, outs: seq<Out>)
    requires |ops| == |outs| && Honest(ops, outs)
    ensures Sound(ListAfter(ops, outs), IssuedBy(outs))
    decreases |ops|
  {
    hide Sound, Allowed, After1, IssuedBy;
    if ops == [] {
      NothingSound();
    } else {
      var n := |ops| - 1;
      RunSound(ops[..n], outs[..n]);
      StepSound(ListAfter(ops[..n], outs[..n]), IssuedBy(outs[..n]), ops[n], outs[n]);
      IssuedSnoc(outs[..n], outs[n]);
      assert outs == outs[..n] + [outs[n]];
    }
  }

  lemma NothingSound()
    ensures Sound([], IssuedBy([]))
  {}

  /** Once a handle has been issued and is out of the list, no run brings it back. */
  lemma {:induction false} StaysGone(ops: seq<Op>, outs: seq<Out>, i: nat, h: Handle)
    requires |ops| == |outs| && Honest(ops, outs) && i < |ops| && ops[i] == RemoveBy(h) && outs[i].Removed?
    ensures h in IssuedBy(outs) && !Has(ListAfter(ops, outs), h)
    decreases |ops|
  {
    hide Sound, After1, IssuedBy;
    var n := |ops| - 1;
    var m, issued := ListAfter(ops[..n], outs[..n]), IssuedBy(outs[..n]);
    RunSound(ops[..n], outs[..n]);
    StepSound(m, issued, ops[n], outs[n]);
    IssuedSnoc(outs[..n], outs[n]);
    assert outs == outs[..n] + [outs[n]];
    if i < n { StaysGone(ops[..n], outs[..n], i, h); } else { ListedIssued(m, issued, h); }
  }

  lemma ListedIssued(m: seq<Pair>, issued: set<Handle>, h: Handle)
    requires Sound(m, issued) && Place(m, h) < |m|
    ensures h in issued
  {}

  /** Generational safety: after its node is removed a handle is stale in every later operation. */
  lemma StaleForever(ops: seq<Op>, outs: seq<Out>, i: nat, k: nat, h: Handle)
    requires |ops| == |outs| && Honest(ops, outs) && i < k < |ops| && ops[i] == RemoveBy(h) && outs[i].Removed?
    requires By(ops[k], h)
    ensures outs[k] == Stale
    decreases |ops|
  {
    hide IssuedBy, After1, ListAfter;
    var n := |ops| - 1;
    if k < n {
      StaleForever(ops[..n], outs[..n], i, k, h);
    } else {
      StaysGone(ops[..n], outs[..n], i, h);
      var m := ListAfter(ops[..n], outs[..n]);
      assert Place(m, h) == |m|;
    }
  }

  /** A neighbour query answers only with handles of the list, so never with a removed one. */
  lemma NeighbourListed(ops: seq<Op>, outs: seq<Out>, k: nat)
    requires |ops| == |outs| && Honest(ops, outs) && k < |ops| && outs[k].Adjacent?
    ensures Has(ListAfter(ops[..k], outs[..k]), outs[k].h)
    decreases |ops|
  {
    hide IssuedBy, After1, ListAfter;
    var n := |ops| - 1;
    if k < n {
      NeighbourListed(ops[..n], outs[..n], k);
      assert ops[..n][..k] == ops[..k] && outs[..n][..k] == outs[..k];
    }
  }

  // ---- the arena behaves so ----

  ghost function Pairs(c: seq<Node>, order: seq<nat>, tag: nat): (m: seq<Pair>)
    requires Below(order, |c|)
    ensures |m| == |order|
    ensures forall i :: 0 <= i < |m| ==>
              m[i] == Pair(Handle(tag, order[i], c[order[i]].generation), c[order[i]].val)
  {
    seq(|order|, i requires 0 <= i < |order| =>
      Pair(Handle(tag, order[i], c[order[i]].generation), c[order[i]].val))
  }

  /** The arena's list is m, and every handle given out so far is in it or buried. */
  ghost predicate Shows(a: Arena, m: seq<Pair>, issued: set<Handle>)
    reads a, a.cells
  {
    && a.Valid() && Below(a.g.order, a.cells.Length)
    && m == Pairs(a.cells[..], a.g.order, a.tag)
    && forall h :: h in issued ==> h in a.g.dead || a.Resolves(h)
  }

  /** A handle resolves exactly where the list shows it. */
  lemma PlaceOf(c: seq<Node>, order: seq<nat>, tag: nat, h: Handle)
    requires Below(order, |c|)
    ensures Place(Pairs(c, order, tag), h) < |order| <==> Names(c, order, tag, h)
  {
    if Names(c, order, tag, h) {
      var i :| 0 <= i < |order| && order[i] == h.id;
      assert Pairs(c, order, tag)[i].h == h;
    }
  }

  /** The same handles resolve and the values are those of the model: the pairs are the model's. */
  lemma PairsAre(c: seq<Node>, order: seq<nat>, tag: nat, m: seq<Pair>)
    requires Below(order, |c|) && |m| == |order|
    requires forall i :: 0 <= i < |m| ==>
               m[i].h.id == order[i] && Names(c, order, tag, m[i].h) && m[i].v == c[order[i]].val
    ensures m == Pairs(c, order, tag)
  {}

  method Insert(a: Arena, left: nat, right: nat, x: nat, ghost k: nat, ghost m: seq<Pair>, ghost issued: set<Handle>)
    returns (h: Handle)
    requires Shows(a, m, issued) && a.Room() && k <= |m|
    requires left == Left(a.g.order, k) && right == Right(a.g.order, k)
    modifies a, a.cells
    ensures a.cells == old(a.cells) || fresh(a.cells)
    ensures h !in issued && Shows(a, Put(m, k, Pair(h, x)), issued + {h}) && a.used <= old(a.used) + 1
  {
    hide Listed, Freed, Parted, Stamped, Buried, Values, Inserted, Names;
    ghost var c, order := a.cells[..], a.g.order;
    HandlesNamed(c, order, a.tag);
    var id := a.InsertBetween(left, right, x, k);
    h := Handle(a.tag, id, a.cells[id].generation);
    assert !old(a.Resolves(h)) by { Unnamed(c, order, a.tag, h); }
    ListedFacts(a.cells[..], a.g.order, a.head, a.tail);
    assert a.Resolves(h);
    forall i | 0 <= i < |m| ensures Names(a.cells[..], a.g.order, a.tag, m[i].h) {
      assert old(a.Resolves(m[i].h)) && a.Resolves(m[i].h);
    }
    PairsPut(c, order, a.cells[..], a.tag, k, h, x);
  }

  lemma Unnamed(c: seq<Node>, order: seq<nat>, tag: nat, h: Handle)
    requires h.id !in order
    ensures !Names(c, order, tag, h)
  {}

  /** Every pair's handle names its node. */
  lemma HandlesNamed(c: seq<Node>, order: seq<nat>, tag: nat)
    requires Below(order, |c|)
    ensures forall i :: 0 <= i < |order| ==> Names(c, order, tag, Pairs(c, order, tag)[i].h)
  {
    forall i | 0 <= i < |order| ensures Names(c, order, tag, Pairs(c, order, tag)[i].h) { assert order[i] in order; }
  }

  lemma PairsPut(c: seq<Node>, order: seq<nat>, c': seq<Node>, tag: nat, k: nat, h: Handle, x: nat)
    requires Below(order, |c|) && k <= |order| && Below(Inserted(order, k, h.id), |c'|)
    requires Values(c', Inserted(order, k, h.id)) == Inserted(Values(c, order), k, x)
    requires Names(c', Inserted(order, k, h.id), tag, h)
    requires forall i :: 0 <= i < |order| ==> Names(c', Inserted(order, k, h.id), tag, Pairs(c, order, tag)[i].h)
    ensures Pairs(c', Inserted(order, k, h.id), tag) == Put(Pairs(c, order, tag), k, Pair(h, x))
  {
    var order', m := Inserted(order, k, h.id), Put(Pairs(c, order, tag), k, Pair(h, x));
    var v, w := Values(c', order'), Values(c, order);
    forall i | 0 <= i < |m| ensures m[i].h.id == order'[i] && Names(c', order', tag, m[i].h) && m[i].v == v[i] {
      if i < k { assert m[i] == Pairs(c, order, tag)[i] && v[i] == w[i]; }
      if i > k { assert m[i] == Pairs(c, order, tag)[i - 1] && v[i] == w[i - 1]; }
    }
    PairsAre(c', order', tag, m);
  }

  lemma PairsDrop(c: seq<Node>, order: seq<nat>, c': seq<Node>, tag: nat, at: nat)
    requires Below(order, |c|) && at < |order| && Below(Cut(order, at), |c'|)
    requires Values(c', Cut(order, at)) == Cut(Values(c, order), at)
    requires forall i :: 0 <= i < |order| && i != at ==> Names(c', Cut(order, at), tag, Pairs(c, order, tag)[i].h)
    ensures Pairs(c', Cut(order, at), tag) == Drop(Pairs(c, order, tag), at)
  {
    var order', m := Cut(order, at), Drop(Pairs(c, order, tag), at);
    var v, w := Values(c', order'), Values(c, order);
    forall i | 0 <= i < |m| ensures m[i].h.id == order'[i] && Names(c', order', tag, m[i].h) && m[i].v == v[i] {
      var o := if i < at then i else i + 1;
      assert m[i] == Pairs(c, order, tag)[o] && v[i] == w[o];
    }
    PairsAre(c', order', tag, m);
  }

  method Remove(a: Arena, h: Handle, ghost m: seq<Pair>, ghost issued: set<Handle>) returns (v: nat)
    requires Shows(a, m, issued) && Place(m, h) < |m|
    modifies a, a.cells
    ensures a.cells == old(a.cells) && a.used == old(a.used)
    ensures v == m[Place(m, h)].v && Shows(a, Drop(m, Place(m, h)), issued)
  {
    hide Listed, Freed, Parted, Stamped, Buried, Values, Cut, Names;
    ghost var c, order, at := a.cells[..], a.g.order, Place(m, h);
    ListedFacts(c, order, a.head, a.tail);
    HandlesNamed(c, order, a.tag);
    v := a.Remove(h.id, at);
    ListedFacts(a.cells[..], a.g.order, a.head, a.tail);
    OtherHandles(c, order, a.tag, at);
    forall i | 0 <= i < |m| && i != at ensures Names(a.cells[..], a.g.order, a.tag, m[i].h) {
      assert old(a.Resolves(m[i].h)) && a.Resolves(m[i].h);
    }
    PairsDrop(c, order, a.cells[..], a.tag, at);
  }

  lemma OtherHandles(c: seq<Node>, order: seq<nat>, tag: nat, at: nat)
    requires Below(order, |c|) && Distinct(order) && at < |order|
    ensures forall i :: 0 <= i < |order| && i != at ==>
              Pairs(c, order, tag)[i].h != Handle(tag, order[at], c[order[at]].generation)
  {
    forall i | 0 <= i < |order| && i != at ensures order[i] != order[at] { Same(order, i, at); }
  }

  lemma PairsSet(c: seq<Node>, order: seq<nat>, c': seq<Node>, tag: nat, at: nat, x: nat)
    requires Below(order, |c|) && at < |order| && Below(order, |c'|)
    requires Values(c', order) == Values(c, order)[at := x]
    requires forall i :: 0 <= i < |order| ==> Names(c', order, tag, Pairs(c, order, tag)[i].h)
    ensures var m := Pairs(c, order, tag); Pairs(c', order, tag) == m[at := Pair(m[at].h, x)]
  {
    var m := Pairs(c, order, tag)[at := Pair(Pairs(c, order, tag)[at].h, x)];
    assert forall i :: 0 <= i < |order| ==> Values(c', order)[i] == m[i].v;
    PairsAre(c', order, tag, m);
  }

  /** dl_set on a handle that is found. */
  method Store(a: Arena, h: Handle, x: nat, ghost m: seq<Pair>, ghost issued: set<Handle>)
    requires Shows(a, m, issued) && Place(m, h) < |m|
    modifies a.cells
    ensures Shows(a, m[Place(m, h) := Pair(h, x)], issued)
  {
    hide Listed, Freed, Parted, Stamped, Buried, Values, Names;
    ghost var c, at := a.cells[..], Place(m, h);
    HandlesNamed(c, a.g.order, a.tag);
    a.Put(h.id, x, at);
    forall i | 0 <= i < |m| ensures Names(a.cells[..], a.g.order, a.tag, m[i].h) {
      assert old(a.Resolves(m[i].h)) && a.Resolves(m[i].h);
    }
    PairsSet(c, a.g.order, a.cells[..], a.tag, at, x);
  }

  /** dl_nbr on a handle that is found. */
  method Adjoining(a: Arena, h: Handle, forward: bool, ghost m: seq<Pair>, ghost issued: set<Handle>)
    returns (out: Out)
    requires Shows(a, m, issued) && Place(m, h) < |m|
    ensures out == Beyond(m, Place(m, h), forward)
  {
    hide Listed, Freed, Parted, Stamped, Buried, Values;
    ghost var at := Place(m, h);
    GapLinks(a.cells[..], a.g.order, a.head, a.tail, at);
    GapLinks(a.cells[..], a.g.order, a.head, a.tail, at + 1);
    var j := if forward then a.cells[h.id].next else a.cells[h.id].prev;
    out := if j == NIL then NoNeighbour else Adjacent(Handle(a.tag, j, a.cells[j].generation));
  }

  /** One operation. Only an insertion can meet a full arena. */
  method Apply(a: Arena, op: Op, ghost m: seq<Pair>, ghost issued: set<Handle>) returns (out: Out)
    requires Shows(a, m, issued) && (Inserts(m, op) ==> a.Room())
    modifies a, a.cells
    ensures a.cells == old(a.cells) || fresh(a.cells)
    ensures a.used <= old(a.used) + 1 && Allowed(m, issued, op, out)
    ensures Shows(a, After1(m, op, out), issued + (if out.Given? then {out.h} else {}))
  {
    hide Listed, Freed, Parted, Stamped, Buried, Values, Names, Shows, Put, Drop, Pairs, Place;
    assert issued + {} == issued;
    match op
    case PushFront(x) => out := Push(a, true, x, m, issued);
    case PushBack(x) => out := Push(a, false, x, m, issued);
    case InsertBeside(h, x, after) =>
      var found := Found(a, h, m, issued);
      if found { out := Beside(a, h, x, after, m, issued); } else { out := Stale; }
    case RemoveBy(h) =>
      var found := Found(a, h, m, issued);
      if found {
        var v := Remove(a, h, m, issued);
        out := Removed(v);
      } else {
        out := Stale;
      }
    case Get(h) =>
      var found := Found(a, h, m, issued);
      if found { out := Read(a, h, m, issued); } else { out := Stale; }
    case Set(h, x) =>
      var found := Found(a, h, m, issued);
      if found { Store(a, h, x, m, issued); }
      out := if found then Stored else Stale;
    case Neighbour(h, forward) =>
      var found := Found(a, h, m, issued);
      if found { out := Adjoining(a, h, forward, m, issued); } else { out := Stale; }
  }

  /** Whether the operation would take a slot. */
  method TakesSlot(a: Arena, op: Op, ghost m: seq<Pair>, ghost issued: set<Handle>) returns (b: bool)
    requires Shows(a, m, issued)
    ensures b <==> Inserts(m, op)
  {
    hide Shows, Place;
    b := op.PushFront? || op.PushBack?;
    if op.InsertBeside? { b := Found(a, op.h, m, issued); }
  }

  method Found(a: Arena, h: Handle, ghost m: seq<Pair>, ghost issued: set<Handle>) returns (found: bool)
    requires Shows(a, m, issued)
    ensures found <==> Place(m, h) < |m|
  {
    hide Listed, Freed, Parted, Stamped, Buried, Values, Names;
    found := a.FindHandle(h);
    PlaceOf(a.cells[..], a.g.order, a.tag, h);
  }

  method Read(a: Arena, h: Handle, ghost m: seq<Pair>, ghost issued: set<Handle>) returns (out: Out)
    requires Shows(a, m, issued) && Place(m, h) < |m|
    ensures out == Got(m[Place(m, h)].v)
  {
    hide Listed, Freed, Parted, Stamped, Buried, Values;
    out := Got(a.cells[h.id].val);
  }

  method Push(a: Arena, front: bool, x: nat, ghost m: seq<Pair>, ghost issued: set<Handle>) returns (out: Out)
    requires Shows(a, m, issued) && a.Room()
    modifies a, a.cells
    ensures a.cells == old(a.cells) || fresh(a.cells)
    ensures a.used <= old(a.used) + 1 && out.Given? && out.h !in issued
    ensures Shows(a, Put(m, if front then 0 else |m|, Pair(out.h, x)), issued + {out.h})
  {
    hide Listed, Freed, Parted, Stamped, Buried, Values, Names, Put;
    ghost var k := if front then 0 else |m|;
    GapLinks(a.cells[..], a.g.order, a.head, a.tail, k);
    var h: Handle;
    if front { h := Insert(a, NIL, a.head, x, k, m, issued); } else { h := Insert(a, a.tail, NIL, x, k, m, issued); }
    out := Given(h);
  }

  method Beside(a: Arena, h: Handle, x: nat, after: bool, ghost m: seq<Pair>, ghost issued: set<Handle>)
    returns (out: Out)
    requires Shows(a, m, issued) && a.Room() && Place(m, h) < |m|
    modifies a, a.cells
    ensures a.cells == old(a.cells) || fresh(a.cells)
    ensures a.used <= old(a.used) + 1 && out.Given? && out.h !in issued
    ensures Shows(a, Put(m, Place(m, h) + (if after then 1 else 0), Pair(out.h, x)), issued + {out.h})
  {
    hide Listed, Freed, Parted, Stamped, Buried, Values, Names, Put;
    ghost var at := Place(m, h);
    GapLinks(a.cells[..], a.g.order, a.head, a.tail, at);
    var g: Handle;
    if after {
      g := Insert(a, h.id, a.cells[h.id].next, x, at + 1, m, issued);
    } else {
      g := Insert(a, a.cells[h.id].prev, h.id, x, at, m, issued);
    }
    out := Given(g);
  }

  // ---- whole runs ----

  lemma IssuedSnoc(outs: seq<Out>, o: Out)
    ensures IssuedBy(outs + [o]) == IssuedBy(outs) + (if o.Given? then {o.h} else {})
  {
    forall h | h in IssuedBy(outs) + (if o.Given? then {o.h} else {}) ensures h in IssuedBy(outs + [o]) {
      if h in IssuedBy(outs) {
        var p :| p in outs && p.Given? && p.h == h;
        assert p in outs + [o];
      } else {
        assert o in outs + [o];
      }
    }
  }

  lemma RunSnoc(ops: seq<Op>, outs: seq<Out>, k: nat, o: Out)
    requires k < |ops| && |outs| == k && Honest(ops[..k], outs)
    requires Allowed(ListAfter(ops[..k], outs), IssuedBy(outs), ops[k], o)
    ensures Honest(ops[..k + 1], outs + [o])
    ensures ListAfter(ops[..k + 1], outs + [o]) == After1(ListAfter(ops[..k], outs), ops[k], o)
  {
    assert ops[..k + 1][..k] == ops[..k] && (outs + [o])[..k] == outs;
  }

  /** Every run of any length answers as the list of handles and values does, up to its end or to an
      insertion that no slot is left for, where the source aborts: the first 2^31 - 1 operations are
      always carried out. */
  method RunOps(tag: nat, ops: seq<Op>) returns (a: Arena, outs: seq<Out>)
    ensures |outs| <= |ops| && Honest(ops[..|outs|], outs)
    ensures Shows(a, ListAfter(ops[..|outs|], outs), IssuedBy(outs))
    ensures |outs| < |ops| ==> !a.Room() && Inserts(ListAfter(ops[..|outs|], outs), ops[|outs|])
    ensures |outs| < |ops| ==> |outs| > 0x7FFF_FFFF
  {
    hide Allowed, After1, Arena.Valid, IssuedBy, Honest, ListAfter, Inserts;
    a := new Arena(tag);
    outs := [];
    RunNone(ops);
    assert Shows(a, [], {}) by { EmptyShows(a); }
    while |outs| < |ops|
      invariant |outs| <= |ops| && fresh(a) && fresh(a.cells) && a.used <= |outs|
      invariant Honest(ops[..|outs|], outs) && Shows(a, ListAfter(ops[..|outs|], outs), IssuedBy(outs))
      decreases |ops| - |outs|
    {
      ghost var m, issued := ListAfter(ops[..|outs|], outs), IssuedBy(outs);
      var inserts := TakesSlot(a, ops[|outs|], m, issued);
      if inserts && !a.Room() {
        FullArena(a);
        return;
      }
      var o := Apply(a, ops[|outs|], m, issued);
      RunSnoc(ops, outs, |outs|, o);
      IssuedSnoc(outs, o);
      outs := outs + [o];
    }
  }

  lemma RunNone(ops: seq<Op>)
    ensures Honest(ops[..0], []) && ListAfter(ops[..0], []) == [] && IssuedBy([]) == {}
  {}

  lemma EmptyShows(a: Arena)
    requires a.Valid() && a.g.order == []
    ensures Shows(a, [], {})
  {}
}
