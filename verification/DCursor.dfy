/** The owning gap cursor of benchmarks/native/dlist_iterator.h over the slot arena, and the sequence
    model of tools/check_iterators.py:6-27 that it refines for every interleaving of its operations. */
module DCursor {
  import opened Sequences
  import opened Threads
  import opened DList

  // ---- the model ----

  /** The element that the last step returned. */
  datatype Current = NoElement | Element(index: nat)

  datatype Model = Model(items: seq<nat>, pos: nat, last: Current)

  datatype Op = First | Last | Next | Previous | Add(x: nat) | Set(x: nat) | Remove | HasNext | HasPrevious

  datatype Out = Done | Value(v: nat) | AtEnd | NoCurrent | Answer(b: bool)

  predicate Sane(m: Model) {
    m.pos <= |m.items| && (m.last.Element? ==> m.last.index < |m.items|)
  }

  function Step(m: Model, op: Op): (r: (Model, Out))
    requires Sane(m)
    ensures Sane(r.0)
  {
    match op
    case First => (Model(m.items, 0, NoElement), Done)
    case Last => (Model(m.items, |m.items|, NoElement), Done)
    case Next =>
      if m.pos == |m.items| then (m, AtEnd)
      else (Model(m.items, m.pos + 1, Element(m.pos)), Value(m.items[m.pos]))
    case Previous =>
      if m.pos == 0 then (m, AtEnd)
      else (Model(m.items, m.pos - 1, Element(m.pos - 1)), Value(m.items[m.pos - 1]))
    case Add(x) => (Model(Inserted(m.items, m.pos, x), m.pos + 1, NoElement), Done)
    case Set(x) =>
      if m.last.NoElement? then (m, NoCurrent) else (m.(items := m.items[m.last.index := x]), Done)
    case Remove =>
      if m.last.NoElement? then (m, NoCurrent)
      else
        var at := m.last.index;
        (Model(Cut(m.items, at), if at < m.pos then m.pos - 1 else m.pos, NoElement), Done)
    case HasNext => (m, Answer(m.pos < |m.items|))
    case HasPrevious => (m, Answer(m.pos > 0))
  }

  function Run(m: Model, ops: seq<Op>): (r: (Model, seq<Out>))
    requires Sane(m)
    ensures Sane(r.0) && |r.1| == |ops|
    decreases |ops|
  {
    if ops == [] then (m, []) else
    var n := |ops| - 1;
    var (m1, outs) := Run(m, ops[..n]);
    var (m2, o) := Step(m1, ops[n]);
    (m2, outs + [o])
  }

  // ---- gaps after a change ----

  lemma GapAfterInsert(order: seq<nat>, k: nat, s: nat)
    requires k <= |order|
    ensures Right(Inserted(order, k, s), k + 1) == Right(order, k)
  {}

  lemma GapAfterCut(order: seq<nat>, at: nat)
    requires at < |order|
    ensures Right(Cut(order, at), at) == After(order, at)
  {}

  // ---- the cursor ----

  class Cursor {
    const list: Arena
    var next: nat
    var last: nat
    var index: nat
    var forward: bool

    /** next is the node after the gap at index; last the node passed over in the last step. */
    ghost predicate Valid()
      reads this, list, list.cells
    {
      && list.Valid() && index <= |list.g.order|
      && next == Right(list.g.order, index)
      && (last != NIL ==>
            if forward then index > 0 && last == list.g.order[index - 1]
            else index < |list.g.order| && last == list.g.order[index])
    }

    ghost function Abs(): (m: Model)
      requires Valid()
      reads this, list, list.cells
      ensures Sane(m)
    {
      Model(list.Items(), index, if last == NIL then NoElement else Element(if forward then index - 1 else index))
    }

    /** it_first: the list moves into the cursor. */
    constructor First(source: Arena)
      requires source.Valid()
      modifies source
      ensures Valid() && Abs() == Model(old(source.Items()), 0, NoElement) && fresh(list) && source.Zeroed()
      ensures list.cells == old(source.cells) && list.used == old(source.used)
    {
      hide Listed, Freed, Parted, Stamped, Buried, Values;
      var l := new Arena.Moved(source);
      list := l;
      next, last, index, forward := l.head, NIL, 0, true;
      new;
      GapLinks(l.cells[..], l.g.order, l.head, l.tail, 0);
    }

    /** it_last. */
    constructor Last(source: Arena)
      requires source.Valid()
      modifies source
      ensures Valid() && Abs() == Model(old(source.Items()), |old(source.Items())|, NoElement)
      ensures fresh(list) && source.Zeroed() && list.cells == old(source.cells) && list.used == old(source.used)
    {
      hide Listed, Freed, Parted, Stamped, Buried, Values;
      var l := new Arena.Moved(source);
      list := l;
      next, last, index, forward := NIL, NIL, l.count, true;
    }

    /** it_finish: the list moves out again, and the cursor is spent. */
    method Finish() returns (s: Arena)
      requires Valid()
      modifies this, list
      ensures s.Valid() && fresh(s) && s.Items() == old(list.Items()) && list.Zeroed()
      ensures s.cells == old(list.cells) && s.used == old(list.used)
      ensures next == last == index == 0 && !forward
    {
      hide Listed, Freed, Parted, Stamped, Buried, Values;
      s := new Arena.Moved(list);
      next, last, index, forward := 0, 0, 0, false;
    }

    /** The node before the gap. */
    method Behind() returns (id: nat)
      requires Valid()
      ensures id == Left(list.g.order, index)
    {
      hide Listed, Freed, Parted, Stamped, Buried, Values;
      GapLinks(list.cells[..], list.g.order, list.head, list.tail, index);
      id := if next == NIL then list.tail else list.cells[next].prev;
    }

    /** it_next. */
    method Next() returns (o: Out)
      requires Valid()
      modifies this
      ensures Valid() && (Abs(), o) == Step(old(Abs()), Op.Next)
    {
      hide Listed, Freed, Parted, Stamped, Buried, Values;
      GapLinks(list.cells[..], list.g.order, list.head, list.tail, index);
      if next == NIL { return AtEnd; }
      var id := next;
      o := Value(list.cells[id].val);
      next := list.cells[id].next;
      last := id;
      forward := true;
      index := index + 1;
    }

    /** it_previous. */
    method Previous() returns (o: Out)
      requires Valid()
      modifies this
      ensures Valid() && (Abs(), o) == Step(old(Abs()), Op.Previous)
    {
      hide Listed, Freed, Parted, Stamped, Buried, Values;
      GapLinks(list.cells[..], list.g.order, list.head, list.tail, index);
      var id := Behind();
      if id == NIL { return AtEnd; }
      o := Value(list.cells[id].val);
      next := id;
      last := id;
      forward := false;
      index := index - 1;
    }

    /** it_set. */
    method Set(x: nat) returns (o: Out)
      requires Valid()
      modifies list.cells
      ensures Valid() && (Abs(), o) == Step(old(Abs()), Op.Set(x))
    {
      hide Listed, Freed, Parted, Stamped, Buried, Values;
      if last == NIL { return NoCurrent; }
      ghost var at := if forward then index - 1 else index;
      GapLinks(list.cells[..], list.g.order, list.head, list.tail, at);
      list.Put(last, x, at);
      o := Done;
    }

    /** it_add. */
    method Add(x: nat) returns (o: Out)
      requires Valid() && list.Room()
      modifies this, list, list.cells
      ensures Valid() && (Abs(), o) == Step(old(Abs()), Op.Add(x))
      ensures list.cells == old(list.cells) || fresh(list.cells)
      ensures list.used <= old(list.used) + 1
    {
      hide Listed, Freed, Parted, Stamped, Buried, Values, Inserted;
      var prev := Behind();
      ghost var order := list.g.order;
      var id := list.InsertBetween(prev, next, x, index);
      GapAfterInsert(order, index, id);
      index := index + 1;
      last := NIL;
      o := Done;
    }

    /** it_remove: next is read before the removed slot's link is reused by the free chain. */
    method Remove() returns (o: Out)
      requires Valid()
      modifies this, list, list.cells
      ensures Valid() && (Abs(), o) == Step(old(Abs()), Op.Remove)
      ensures list.cells == old(list.cells) && list.used == old(list.used)
    {
      hide Listed, Freed, Parted, Stamped, Buried, Values, Names, Cut, After, Right;
      if last == NIL { return NoCurrent; }
      ghost var at, order := if forward then index - 1 else index, list.g.order;
      GapLinks(list.cells[..], order, list.head, list.tail, at);
      next := list.cells[last].next;
      var v := list.Remove(last, at);
      GapAfterCut(order, at);
      if forward { index := index - 1; }
      last := NIL;
      o := Done;
    }
  }

  /** One operation. Only an insertion can meet a full arena. */
  method Apply(c: Cursor, op: Op) returns (d: Cursor, o: Out)
    requires c.Valid() && (op.Add? ==> c.list.Room())
    modifies c, c.list, c.list.cells
    ensures d.Valid() && (d.Abs(), o) == Step(old(c.Abs()), op)
    ensures d == c || (fresh(d) && fresh(d.list))
    ensures d.list.cells == old(c.list.cells) || fresh(d.list.cells)
    ensures d.list.used <= old(c.list.used) + 1
  {
    hide Cursor.Valid, Cursor.Abs, Arena.Valid, Arena.Items;
    d := c;
    match op
    case First => d := Restart(c, true); o := Done;
    case Last => d := Restart(c, false); o := Done;
    case Next => o := c.Next();
    case Previous => o := c.Previous();
    case Add(x) => o := c.Add(x);
    case Set(x) => o := c.Set(x);
    case Remove => o := c.Remove();
    case HasNext => o := Ends(c, true);
    case HasPrevious => o := Ends(c, false);
  }

  /** it_finish, then it_first or it_last on the returned list. */
  method Restart(c: Cursor, first: bool) returns (d: Cursor)
    requires c.Valid()
    modifies c, c.list
    ensures d.Valid() && fresh(d) && fresh(d.list) && c.list.Zeroed()
    ensures d.list.cells == old(c.list.cells) && d.list.used == old(c.list.used)
    ensures d.Abs() == Step(old(c.Abs()), if first then Op.First else Op.Last).0
  {
    hide Listed, Freed, Parted, Stamped, Buried, Values;
    var list := c.Finish();
    if first { d := new Cursor.First(list); } else { d := new Cursor.Last(list); }
  }

  /** it_has_next and it_has_previous. */
  method Ends(c: Cursor, forward: bool) returns (o: Out)
    requires c.Valid()
    ensures (c.Abs(), o) == Step(c.Abs(), if forward then Op.HasNext else Op.HasPrevious)
  {
    hide Listed, Freed, Parted, Stamped, Buried, Values;
    GapLinks(c.list.cells[..], c.list.g.order, c.list.head, c.list.tail, c.index);
    o := if forward then Answer(c.next != NIL) else Answer(c.index != 0);
  }

  lemma RunSnoc(m: Model, ops: seq<Op>, k: nat)
    requires Sane(m) && k < |ops|
    ensures Run(m, ops[..k + 1]) ==
            (Step(Run(m, ops[..k]).0, ops[k]).0, Run(m, ops[..k]).1 + [Step(Run(m, ops[..k]).0, ops[k]).1])
  {
    assert ops[..k + 1][..k] == ops[..k];
  }

  /** Whole runs of any length: every output is the model's, and so is the list that remains, up to
      the end or to an addition that no slot is left for, where the source aborts: the first 2^31 - 1
      operations are always carried out. */
  method RunOps(tag: nat, ops: seq<Op>) returns (c: Cursor, outs: seq<Out>)
    ensures c.Valid() && |outs| <= |ops| && (c.Abs(), outs) == Run(Model([], 0, NoElement), ops[..|outs|])
    ensures |outs| < |ops| ==> !c.list.Room() && ops[|outs|].Add? && |outs| > 0x7FFF_FFFF
  {
    hide Cursor.Valid, Cursor.Abs, Arena.Valid, Arena.Items, Step, Run;
    var list := new Arena(tag);
    c := new Cursor.First(list);
    outs := [];
    RunNone(ops);
    while |outs| < |ops|
      invariant |outs| <= |ops| && c.Valid() && fresh(c) && fresh(c.list) && fresh(c.list.cells)
      invariant (c.Abs(), outs) == Run(Model([], 0, NoElement), ops[..|outs|])
      invariant c.list.used <= |outs|
      decreases |ops| - |outs|
    {
      if ops[|outs|].Add? && !c.list.Room() {
        ListValid(c);
        FullArena(c.list);
        return;
      }
      var o;
      c, o := Apply(c, ops[|outs|]);
      RunSnoc(Model([], 0, NoElement), ops, |outs|);
      outs := outs + [o];
    }
  }

  lemma ListValid(c: Cursor)
    requires c.Valid()
    ensures c.list.Valid()
  {}

  lemma RunNone(ops: seq<Op>)
    ensures Run(Model([], 0, NoElement), ops[..0]) == (Model([], 0, NoElement), [])
  {}
}
