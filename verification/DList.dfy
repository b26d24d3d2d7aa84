/** The generational slot arena of benchmarks/native/dlist_arena.h: a doubly linked list threaded
    through array cells, a free chain through the same next links, and handles whose generation tells
    whether their node is still there. */
module DList {
  import opened Sequences
  import opened Threads

  /** UINT32_MAX: the last generation, after which a slot retires. */
  const LAST: nat := 0xFFFF_FFFF

  datatype Node = Node(val: nat, prev: nat, next: nat, live: bool, generation: nat)

  datatype Handle = Handle(tag: nat, id: nat, generation: nat)

  /** The listed slots in order, the free chain, the retired slots and the handles of removed nodes. */
  datatype Layout = Layout(order: seq<nat>, chain: seq<nat>, retired: set<nat>, dead: set<Handle>)

  const ZERO := Node(0, 0, 0, false, 0)

  // ---- the arena as links ----

  function Prevs(c: seq<Node>): (s: seq<nat>)
    ensures |s| == |c| && forall i :: 0 <= i < |c| ==> s[i] == c[i].prev
  {
    seq(|c|, i requires 0 <= i < |c| => c[i].prev)
  }

  function Nexts(c: seq<Node>): (s: seq<nat>)
    ensures |s| == |c| && forall i :: 0 <= i < |c| ==> s[i] == c[i].next
  {
    seq(|c|, i requires 0 <= i < |c| => c[i].next)
  }

  ghost predicate Listed(c: seq<Node>, order: seq<nat>, head: nat, tail: nat) {
    Threaded(order, Prevs(c), Nexts(c), head, tail)
  }

  ghost predicate Freed(c: seq<Node>, chain: seq<nat>, free: nat) {
    Chained(chain, Nexts(c), free)
  }

  /** The slots handed out so far are live, free or retired, and only one of these; those in taken
      have left the free ones and are not linked yet. */
  ghost predicate Parted(g: Layout, used: nat, taken: set<nat>) {
    && Distinct(g.order) && Distinct(g.chain)
    && (forall s :: s in g.order ==> s < used && s !in g.chain && s !in g.retired && s !in taken)
    && (forall s :: s in g.chain ==> s < used && s !in g.retired && s !in taken)
    && (forall s :: s in g.retired ==> s < used && s !in taken)
    && (forall s :: s in taken ==> s < used)
    && (forall s :: 0 <= s < used ==> s in g.order || s in g.chain || s in g.retired || s in taken)
  }

  /** The live marks are the list's; generations fit a word, and the retired ones are used up. */
  ghost predicate Stamped(c: seq<Node>, g: Layout, used: nat) {
    && used <= |c|
    && (forall i :: 0 <= i < |c| ==> (c[i].live <==> i in g.order) && c[i].generation <= LAST)
    && (forall i :: i in g.retired ==> i < |c| && c[i].generation == LAST)
    && (forall i :: used <= i < |c| ==> c[i].generation == 0)
  }

  /** A removed node's generation is past, or its slot is retired. */
  ghost predicate Buried(c: seq<Node>, g: Layout, used: nat, tag: nat) {
    forall h :: h in g.dead ==>
      && h.tag == tag && h.id < used && used <= |c|
      && (h.generation < c[h.id].generation || h.id in g.retired)
  }

  ghost function Values(c: seq<Node>, order: seq<nat>): (s: seq<nat>)
    requires Below(order, |c|)
    ensures |s| == |order| && forall i :: 0 <= i < |order| ==> s[i] == c[order[i]].val
  {
    seq(|order|, i requires 0 <= i < |order| => c[order[i]].val)
  }

  function Inserted(s: seq<nat>, k: nat, x: nat): (r: seq<nat>)
    requires k <= |s|
    ensures |r| == |s| + 1
  {
    Sequences.Put(s, k, x)
  }

  // ---- linking in the middle ----

  /** The slots around gap k, NIL past either end. */
  function Left(order: seq<nat>, k: nat): nat
    requires k <= |order|
  {
    if k == 0 then NIL else order[k - 1]
  }

  function Right(order: seq<nat>, k: nat): nat
    requires k <= |order|
  {
    if k == |order| then NIL else order[k]
  }

  lemma InsertedNeighbours(order: seq<nat>, k: nat, s: nat, i: nat)
    requires k <= |order| && i <= |order|
    ensures var r := Inserted(order, k, s);
            && r[i] == (if i < k then order[i] else if i == k then s else order[i - 1])
            && Before(r, i) == (if i == k then Left(order, k) else if i == k + 1 then s
                                else if i < k then Before(order, i) else Before(order, i - 1))
            && After(r, i) == (if i == k then Right(order, k) else if i + 1 == k then s
                               else if i < k then After(order, i) else After(order, i - 1))
  {}

  lemma InsertedMembers(order: seq<nat>, k: nat, s: nat)
    requires k <= |order| && Distinct(order) && s !in order
    ensures Distinct(Inserted(order, k, s))
    ensures forall x :: x in Inserted(order, k, s) <==> x in order || x == s
  {
    var r := Inserted(order, k, s);
    assert r[k] == s;
    forall x | x in order ensures x in r {
      var i :| 0 <= i < |order| && order[i] == x;
      assert r[if i < k then i else i + 1] == x;
    }
    forall i, j | 0 <= i < j < |r| ensures r[i] != r[j] {
      InsertedNeighbours(order, k, s, i); InsertedNeighbours(order, k, s, j);
      if i != k { assert r[i] in order; }
      if j != k { assert r[j] in order; }
    }
  }

  /** Storing x at the new slot s, then y at the neighbour, if there is one. */
  function Relinked(links: seq<nat>, s: nat, x: nat, end: nat, y: nat): (r: seq<nat>)
    requires s < |links| && (end == NIL || end < |links|)
    ensures |r| == |links|
  {
    if end == NIL then links[s := x] else links[s := x][end := y]
  }

  lemma RelinkedAt(order: seq<nat>, k: nat, s: nat, i: nat, links: seq<nat>, end: nat, x: nat, y: nat)
    requires Below(order, |links|) && s < |links| <= NIL && s !in order
    requires k <= |order| && i <= |order| && (end == NIL || (end < |links| && end in order))
    ensures var r := Inserted(order, k, s);
            && r[i] < |links|
            && Relinked(links, s, x, end, y)[r[i]] == (if i == k then x else if r[i] == end then y else links[r[i]])
  {
    hide Inserted;
    InsertedNeighbours(order, k, s, i);
    if i != k { assert Inserted(order, k, s)[i] in order; }
  }

  lemma Same(order: seq<nat>, i: nat, j: nat)
    requires Distinct(order) && i < |order| && j < |order|
    ensures order[i] == order[j] <==> i == j
  {}

  lemma GapEnds(order: seq<nat>, limit: nat, k: nat)
    requires Below(order, limit) && limit <= NIL && k <= |order|
    ensures var a, b := Left(order, k), Right(order, k);
            && (a == NIL || (a < limit && a in order)) && (b == NIL || (b < limit && b in order))
            && (a == NIL <==> k == 0) && (b == NIL <==> k == |order|)
  {}

  lemma InsertPrev(order: seq<nat>, prev: seq<nat>, k: nat, s: nat, i: nat)
    requires Distinct(order) && Below(order, |prev|) && s < |prev| <= NIL && s !in order
    requires forall i :: 0 <= i < |order| ==> prev[order[i]] == Before(order, i)
    requires k <= |order| && i <= |order|
    ensures var a, b, r := Left(order, k), Right(order, k), Inserted(order, k, s);
            (b == NIL || b < |prev|) && r[i] < |prev| && Relinked(prev, s, a, b, s)[r[i]] == Before(r, i)
  {
    hide Inserted, Distinct, Before, After, Relinked;
    GapEnds(order, |prev|, k);
    RelinkedAt(order, k, s, i, prev, Right(order, k), Left(order, k), s);
    InsertedNeighbours(order, k, s, i);
    if i != k && k < |order| { Same(order, k, if i < k then i else i - 1); }
  }

  lemma InsertNext(order: seq<nat>, next: seq<nat>, k: nat, s: nat, i: nat)
    requires Distinct(order) && Below(order, |next|) && s < |next| <= NIL && s !in order
    requires forall i :: 0 <= i < |order| ==> next[order[i]] == After(order, i)
    requires k <= |order| && i <= |order|
    ensures var a, b, r := Left(order, k), Right(order, k), Inserted(order, k, s);
            (a == NIL || a < |next|) && r[i] < |next| && Relinked(next, s, b, a, s)[r[i]] == After(r, i)
  {
    hide Inserted, Distinct, Before, After, Relinked;
    GapEnds(order, |next|, k);
    RelinkedAt(order, k, s, i, next, Left(order, k), Right(order, k), s);
    InsertedNeighbours(order, k, s, i);
    if i != k && k > 0 { Same(order, k - 1, if i < k then i else i - 1); }
  }

  lemma InsertEnds(order: seq<nat>, k: nat, s: nat)
    requires k <= |order|
    ensures var r := Inserted(order, k, s);
            && r[0] == (if k == 0 then s else order[0])
            && r[|r| - 1] == (if k == |order| then s else order[|order| - 1])
  {}

  /** Linking s into gap k. */
  lemma Insert(order: seq<nat>, prev: seq<nat>, next: seq<nat>, head: nat, tail: nat, k: nat, s: nat)
    requires Threaded(order, prev, next, head, tail) && k <= |order| && s < |next| && s !in order
    ensures var a, b := Left(order, k), Right(order, k);
            && (a == NIL || a < |next|) && (b == NIL || b < |prev|)
            && Threaded(Inserted(order, k, s), Relinked(prev, s, a, b, s), Relinked(next, s, b, a, s),
                        if a == NIL then s else head, if b == NIL then s else tail)
  {
    hide Distinct, Inserted, Before, After, Relinked;
    var a, b, r := Left(order, k), Right(order, k), Inserted(order, k, s);
    GapEnds(order, |next|, k);
    InsertedMembers(order, k, s);
    forall i | 0 <= i < |r|
      ensures r[i] < |next| && Relinked(prev, s, a, b, s)[r[i]] == Before(r, i)
      ensures Relinked(next, s, b, a, s)[r[i]] == After(r, i)
    {
      InsertPrev(order, prev, k, s, i);
      InsertNext(order, next, k, s, i);
    }
    InsertEnds(order, k, s);
  }

  /** The handle is that of a listed node. */
  ghost predicate Names(c: seq<Node>, order: seq<nat>, tag: nat, h: Handle) {
    h.tag == tag && h.id in order && h.id < |c| && c[h.id].generation == h.generation
  }

  // ---- one node removed ----

  /** The marks cleared and the neighbours relinked (dlist_arena.h:58-61). */
  function Detached(c: seq<Node>, id: nat): (r: seq<Node>)
    requires id < |c| && (c[id].prev == NIL || c[id].prev < |c|) && (c[id].next == NIL || c[id].next < |c|)
    ensures |r| == |c|
  {
    var a, b := c[id].prev, c[id].next;
    var c1 := c[id := c[id].(live := false, val := 0)];
    var c2 := if a == NIL then c1 else c1[a := c1[a].(next := b)];
    if b == NIL then c2 else c2[b := c2[b].(prev := a)]
  }

  lemma DetachedLinks(c: seq<Node>, id: nat)
    requires id < |c| && (c[id].prev == NIL || c[id].prev < |c|) && (c[id].next == NIL || c[id].next < |c|)
    ensures var a, b, r := c[id].prev, c[id].next, Detached(c, id);
            && Prevs(r) == (if b == NIL then Prevs(c) else Prevs(c)[b := a])
            && Nexts(r) == (if a == NIL then Nexts(c) else Nexts(c)[a := b])
  {}

  lemma DetachedMarks(c: seq<Node>, id: nat)
    requires id < |c| && (c[id].prev == NIL || c[id].prev < |c|) && (c[id].next == NIL || c[id].next < |c|)
    ensures forall i :: 0 <= i < |c| ==>
              && Detached(c, id)[i].generation == c[i].generation
              && Detached(c, id)[i].live == (c[i].live && i != id)
              && (i != id ==> Detached(c, id)[i].val == c[i].val)
  {}

  /** A slot with generations left goes on the free chain (dlist_arena.h:64-68). */
  function Released(c: seq<Node>, id: nat, free: nat): (r: seq<Node>)
    requires id < |c|
    ensures |r| == |c|
  {
    if c[id].generation == LAST then c
    else c[id := c[id].(generation := c[id].generation + 1, next := free)]
  }

  lemma ReleasedLinks(c: seq<Node>, id: nat, free: nat)
    requires id < |c|
    ensures Prevs(Released(c, id, free)) == Prevs(c)
    ensures Nexts(Released(c, id, free)) == if c[id].generation == LAST then Nexts(c) else Nexts(c)[id := free]
  {}

  /** The layout after the removal of position at, a node of the given handle. */
  ghost function Buried1(g: Layout, at: nat, h: Handle): Layout
    requires at < |g.order|
  {
    if h.generation == LAST then Layout(Cut(g.order, at), g.chain, g.retired + {h.id}, g.dead + {h})
    else Layout(Cut(g.order, at), [h.id] + g.chain, g.retired, g.dead + {h})
  }

  lemma RemoveParted(g: Layout, used: nat, at: nat, h: Handle)
    requires Parted(g, used, {}) && at < |g.order| && h.id == g.order[at]
    ensures Parted(Buried1(g, at, h), used, {})
  {
    hide Distinct, Cut;
    CutFacts(g.order, at);
    DistinctCons(h.id, g.chain);
    assert h.id in g.order;
  }

  lemma DistinctCons(x: nat, s: seq<nat>)
    requires Distinct(s) && x !in s
    ensures Distinct([x] + s) && forall y :: y in [x] + s <==> y == x || y in s
  {}

  lemma RemoveLinks(c: seq<Node>, g: Layout, head: nat, tail: nat, free: nat, used: nat, at: nat, h: Handle)
    requires Listed(c, g.order, head, tail) && Freed(c, g.chain, free) && Parted(g, used, {})
    requires at < |g.order| && h.id == g.order[at] < |c| && h.generation == c[h.id].generation
    ensures var a, b, g' := c[h.id].prev, c[h.id].next, Buried1(g, at, h);
            && (a == NIL || a < |c|) && (b == NIL || b < |c|)
            && var c' := Released(Detached(c, h.id), h.id, free);
               && Listed(c', g'.order, if a == NIL then b else head, if b == NIL then a else tail)
               && Freed(c', g'.chain, if h.generation == LAST then free else h.id)
  {
    hide Threaded, Chained, Distinct, Cut, Detached, Released;
    Unthread(g.order, Prevs(c), Nexts(c), head, tail, at);
    var d := Detached(c, h.id);
    DetachedLinks(c, h.id); DetachedMarks(c, h.id); ReleasedLinks(d, h.id, free);
    CutFacts(g.order, at);
    var a, b := c[h.id].prev, c[h.id].next;
    if h.generation != LAST {
      ThreadedIgnores(Cut(g.order, at), Prevs(d), Nexts(d), if a == NIL then b else head, if b == NIL then a else tail,
                      h.id, free);
    }
    ChainKept(c, g, head, tail, free, used, at, d, h);
  }

  lemma ChainKept(c: seq<Node>, g: Layout, head: nat, tail: nat, free: nat, used: nat, at: nat, d: seq<Node>, h: Handle)
    requires Listed(c, g.order, head, tail) && Freed(c, g.chain, free) && Parted(g, used, {})
    requires at < |g.order| && h.id == g.order[at] < |c| && |d| == |c|
    requires var a := c[h.id].prev;
             (a == NIL || a < |c|) && Nexts(d) == if a == NIL then Nexts(c) else Nexts(c)[a := c[h.id].next]
    ensures Chained(g.chain, Nexts(d), free)
    ensures Chained([h.id] + g.chain, Nexts(d)[h.id := free], h.id)
  {
    hide Threaded, Distinct;
    ThreadedLinks(g.order, Prevs(c), Nexts(c), head, tail, at);
    var a := c[h.id].prev;
    assert a == NIL || a in g.order by { BeforeIn(g.order, at); }
    forall i | 0 <= i < |g.chain| ensures Nexts(d)[g.chain[i]] == After(g.chain, i) { assert g.chain[i] in g.chain; }
    ChainCons(g.chain, Nexts(d), free, h.id) by { assert h.id in g.order; }
  }

  lemma BeforeIn(order: seq<nat>, at: nat)
    requires at < |order|
    ensures Before(order, at) == NIL || Before(order, at) in order
  {}

  lemma ChainCons(chain: seq<nat>, next: seq<nat>, free: nat, s: nat)
    requires Chained(chain, next, free) && s < |next| && s !in chain
    ensures Chained([s] + chain, next[s := free], s)
  {
    var chain', next' := [s] + chain, next[s := free];
    forall i | 0 <= i < |chain'| ensures next'[chain'[i]] == After(chain', i) {
      if i > 0 {
        assert chain[i - 1] in chain;
        assert next[chain[i - 1]] == After(chain, i - 1);
      }
    }
  }

  lemma RemoveMarks(c: seq<Node>, g: Layout, used: nat, tag: nat, at: nat, h: Handle, free: nat)
    requires Stamped(c, g, used) && Buried(c, g, used, tag) && Parted(g, used, {})
    requires at < |g.order| && g.order[at] < |c| && h == Handle(tag, g.order[at], c[g.order[at]].generation)
    requires (c[h.id].prev == NIL || c[h.id].prev < |c|) && (c[h.id].next == NIL || c[h.id].next < |c|)
    ensures var c', g' := Released(Detached(c, h.id), h.id, free), Buried1(g, at, h);
            Stamped(c', g', used) && Buried(c', g', used, tag)
  {
    hide Cut, Detached;
    CutFacts(g.order, at);
    DetachedMarks(c, h.id);
    assert h.id in g.order;
  }

  // ---- one node inserted ----

  /** The slot filled and the neighbours relinked (dlist_arena.h:82-90). */
  function Linked(c: seq<Node>, id: nat, x: nat, a: nat, b: nat): (r: seq<Node>)
    requires id < |c| && (a == NIL || a < |c|) && (b == NIL || b < |c|)
    ensures |r| == |c|
  {
    var c1 := c[id := c[id].(val := x, prev := a, next := b, live := true)];
    var c2 := if a == NIL then c1 else c1[a := c1[a].(next := id)];
    if b == NIL then c2 else c2[b := c2[b].(prev := id)]
  }

  lemma LinkedLinks(c: seq<Node>, id: nat, x: nat, a: nat, b: nat)
    requires id < |c| && (a == NIL || a < |c|) && (b == NIL || b < |c|) && id != a && id != b
    ensures var r := Linked(c, id, x, a, b);
            && Prevs(r) == Relinked(Prevs(c), id, a, b, id) && Nexts(r) == Relinked(Nexts(c), id, b, a, id)
  {}

  lemma LinkedMarks(c: seq<Node>, id: nat, x: nat, a: nat, b: nat)
    requires id < |c| && (a == NIL || a < |c|) && (b == NIL || b < |c|) && id != a && id != b
    ensures forall i :: 0 <= i < |c| ==>
              && Linked(c, id, x, a, b)[i].generation == c[i].generation
              && Linked(c, id, x, a, b)[i].live == (c[i].live || i == id)
              && Linked(c, id, x, a, b)[i].val == (if i == id then x else c[i].val)
  {}

  ghost function Inserted1(g: Layout, k: nat, id: nat): Layout
    requires k <= |g.order|
  {
    g.(order := Inserted(g.order, k, id))
  }

  lemma InsertKeeps(c: seq<Node>, g: Layout, head: nat, tail: nat, free: nat, used: nat, tag: nat, k: nat, id: nat,
                    x: nat)
    requires Listed(c, g.order, head, tail) && Freed(c, g.chain, free) && Parted(g, used, {id})
    requires Stamped(c, g, used) && Buried(c, g, used, tag) && k <= |g.order|
    ensures var a, b := Left(g.order, k), Right(g.order, k);
            && id < |c| <= NIL && used <= |c|
            && (a == NIL || (a < used && c[a].live)) && (b == NIL || (b < used && c[b].live))
            && id != a && id != b && c[id].live == false
            && var c', g' := Linked(c, id, x, a, b), Inserted1(g, k, id);
               && Listed(c', g'.order, if a == NIL then id else head, if b == NIL then id else tail)
               && Freed(c', g'.chain, free) && Parted(g', used, {})
               && Stamped(c', g', used) && Buried(c', g', used, tag)
  {
    hide Threaded, Chained, Distinct, Inserted, Linked, Relinked;
    var a, b := Left(g.order, k), Right(g.order, k);
    assert id in {id};
    ThreadedSlots(g.order, Prevs(c), Nexts(c), head, tail);
    GapLive(c, g, head, tail, k);
    ListedFacts(c, g.order, head, tail);
    assert id !in g.order && c[id].live == false;
    LinkedLinks(c, id, x, a, b); LinkedMarks(c, id, x, a, b);
    Insert(g.order, Prevs(c), Nexts(c), head, tail, k, id);
    InsertedMembers(g.order, k, id);
    ChainStays(g.chain, Nexts(c), free, id, b, a) by { GapOut(g, used, k, id); }
  }

  lemma GapLive(c: seq<Node>, g: Layout, head: nat, tail: nat, k: nat)
    requires Listed(c, g.order, head, tail) && k <= |g.order|
    ensures var a, b := Left(g.order, k), Right(g.order, k);
            (a == NIL || (a < |c| && a in g.order)) && (b == NIL || (b < |c| && b in g.order))
  {}

  lemma GapOut(g: Layout, used: nat, k: nat, id: nat)
    requires Parted(g, used, {id}) && k <= |g.order|
    ensures id !in g.chain && (Left(g.order, k) !in g.chain || Left(g.order, k) == NIL)
  {
    assert k > 0 ==> g.order[k - 1] in g.order;
  }

  lemma ChainStays(chain: seq<nat>, next: seq<nat>, free: nat, s: nat, x: nat, a: nat)
    requires Chained(chain, next, free) && s < |next| && s !in chain && (a == NIL || (a < |next| && a !in chain))
    ensures Chained(chain, Relinked(next, s, x, a, s), free)
  {
    forall i | 0 <= i < |chain| ensures Relinked(next, s, x, a, s)[chain[i]] == After(chain, i) {
      assert chain[i] in chain;
    }
  }

  lemma TakeChain(chain: seq<nat>, next: seq<nat>, free: nat)
    requires Chained(chain, next, free) && free != NIL
    ensures chain != [] && free == chain[0] < |next| && Chained(chain[1..], next, next[free])
  {
    var t := chain[1..];
    forall i | 0 <= i < |t| ensures t[i] < |next| && next[t[i]] == After(t, i) {
      assert t[i] == chain[i + 1] && next[chain[i + 1]] == After(chain, i + 1);
    }
    assert next[chain[0]] == After(chain, 0);
  }

  lemma TakeParted(g: Layout, used: nat)
    requires Parted(g, used, {}) && g.chain != []
    ensures Parted(g.(chain := g.chain[1..]), used, {g.chain[0]})
  {
    var x, t := g.chain[0], g.chain[1..];
    assert g.chain == [x] + t;
    assert x in g.chain;
    forall s | s in t ensures s in g.chain && s != x {
      var i :| 0 <= i < |t| && t[i] == s;
      assert g.chain[i + 1] == s;
    }
    forall s | s in g.chain && s != x ensures s in t {}
  }

  /** Taking the first slot of the free chain. */
  lemma TakeFirst(c: seq<Node>, g: Layout, free: nat, used: nat, tag: nat)
    requires Freed(c, g.chain, free) && Parted(g, used, {}) && free != NIL
    requires Stamped(c, g, used) && Buried(c, g, used, tag)
    ensures g.chain != [] && free == g.chain[0] < |c|
    ensures var g' := g.(chain := g.chain[1..]);
            && Freed(c, g'.chain, c[free].next) && Parted(g', used, {free})
            && Stamped(c, g', used) && Buried(c, g', used, tag)
  {
    hide Chained, Parted;
    TakeChain(g.chain, Nexts(c), free);
    TakeParted(g, used);
  }

  lemma TakeFresh(c: seq<Node>, g: Layout, used: nat, tag: nat)
    requires Parted(g, used, {}) && Stamped(c, g, used) && Buried(c, g, used, tag) && used < |c|
    ensures Parted(g, used + 1, {used}) && Stamped(c, g, used + 1) && Buried(c, g, used + 1, tag)
  {}

  /** Zeroed cells beyond the old ones change nothing. */
  lemma GrownKeeps(c: seq<Node>, n: nat, g: Layout, head: nat, tail: nat, free: nat, used: nat, tag: nat)
    requires Listed(c, g.order, head, tail) && Freed(c, g.chain, free) && Stamped(c, g, used) && Buried(c, g, used, tag)
    requires |c| + n <= NIL && Parted(g, used, {})
    ensures var c' := c + seq(n, i => ZERO);
            && Listed(c', g.order, head, tail) && Freed(c', g.chain, free)
            && Stamped(c', g, used) && Buried(c', g, used, tag)
  {
    var c' := c + seq(n, i => ZERO);
    assert forall i :: 0 <= i < |c| ==> Prevs(c')[i] == Prevs(c)[i] && Nexts(c')[i] == Nexts(c)[i];
  }

  /** What the links around gap k and at its neighbours hold. */
  lemma GapLinks(c: seq<Node>, order: seq<nat>, head: nat, tail: nat, k: nat)
    requires Listed(c, order, head, tail) && k <= |order|
    ensures |c| <= NIL && Below(order, |c|)
    ensures head == Right(order, 0) && tail == Left(order, |order|)
    ensures k < |order| ==> order[k] < |c| && order[k] != NIL
                            && c[order[k]].prev == Left(order, k) && c[order[k]].next == Right(order, k + 1)
    ensures k > 0 ==> order[k - 1] < |c| && order[k - 1] != NIL
                      && c[order[k - 1]].next == Right(order, k) && c[order[k - 1]].next == After(order, k - 1)
    ensures k < |order| ==> c[order[k]].next == After(order, k)
  {
    assert forall i :: 0 <= i < |order| ==> Prevs(c)[order[i]] == c[order[i]].prev;
    assert forall i :: 0 <= i < |order| ==> Nexts(c)[order[i]] == c[order[i]].next;
  }

  // ---- the arena ----

  class Arena {
    var tag: nat
    var used: nat
    var count: nat
    var freeHead: nat
    var head: nat
    var tail: nat
    var cells: array<Node>
    ghost var g: Layout

    ghost predicate Valid()
      reads this, cells
    {
      && cells.Length > 0
      && Listed(cells[..], g.order, head, tail) && Freed(cells[..], g.chain, freeHead) && Parted(g, used, {})
      && Stamped(cells[..], g, used) && Buried(cells[..], g, used, tag)
      && count == |g.order|
    }

    /** The values in list order. */
    ghost function Items(): (s: seq<nat>)
      requires Valid()
      reads this, cells
      ensures |s| == count == |g.order| && forall i :: 0 <= i < |s| ==> s[i] == cells[g.order[i]].val
    {
      Values(cells[..], g.order)
    }

    /** The handle names a node of the list. */
    ghost predicate Resolves(h: Handle)
      reads this, cells
    {
      Names(cells[..], g.order, tag, h)
    }

    /** An insertion finds a slot without the source's abort. */
    predicate Room()
      reads this
    {
      freeHead != NIL || used < cells.Length || cells.Length <= 0x7FFF_FFFF
    }

    constructor (tag: nat)
      ensures Valid() && Items() == [] && g.dead == {} && used == 0 && this.tag == tag && fresh(cells)
    {
      this.tag := tag;
      used, count := 0, 0;
      freeHead, head, tail := NIL, NIL, NIL;
      cells := new Node[1](i => ZERO);
      g := Layout([], [], {}, {});
    }

    /** dlist_iterator.h:9 and 11: the structure is copied and the one it came from set to zero. Both
        would share the cells otherwise; a null pointer to cells is an array without cells. */
    constructor Moved(source: Arena)
      requires source.Valid()
      modifies source
      ensures Valid() && cells == old(source.cells) && used == old(source.used) && Items() == old(source.Items())
      ensures tag == old(source.tag) && g == old(source.g) && source.Zeroed()
    {
      tag, used, count := source.tag, source.used, source.count;
      freeHead, head, tail := source.freeHead, source.head, source.tail;
      cells := source.cells;
      g := source.g;
      new;
      source.Clear();
    }

    method Clear()
      modifies this
      ensures Zeroed()
    {
      tag, used, count, freeHead, head, tail := 0, 0, 0, 0, 0, 0;
      cells := new Node[0];
    }

    /** What is left of a structure that was moved away: no valid arena, and no cell to reach. */
    ghost predicate Zeroed()
      reads this, cells
    {
      tag == used == count == freeHead == head == tail == cells.Length == 0
    }

    /** dlist_arena.h:44-48. */
    method FindNode(i: nat) returns (found: bool)
      requires Valid()
      ensures found <==> i in g.order
    {
      found := i < used && cells[i].live;
    }

    /** dlist_arena.h:50-54: a handle is found exactly while its node is in the list. */
    method FindHandle(h: Handle) returns (found: bool)
      requires Valid()
      ensures found <==> Resolves(h)
      ensures h in g.dead ==> !found
    {
      found := false;
      if h.tag == tag {
        var n := FindNode(h.id);
        ListedBelow(h.id);
        found := n && cells[h.id].generation == h.generation;
      }
    }

    lemma ListedBelow(i: nat)
      requires Valid()
      ensures i in g.order ==> i < cells.Length
    {}

    /** dlist_arena.h:56-70. */
    method Remove(id: nat, ghost at: nat) returns (value: nat)
      requires Valid() && at < |g.order| && id == g.order[at] < cells.Length
      modifies this`count, this`head, this`tail, this`freeHead, this`g, cells
      ensures Valid() && value == old(Items()[at]) && Items() == Cut(old(Items()), at)
      ensures g == Buried1(old(g), at, Handle(tag, id, old(cells[id].generation)))
      ensures if old(cells[id].generation) == 0xFFFF_FFFF then freeHead == old(freeHead)
              else freeHead == id && cells[id].generation == old(cells[id].generation) + 1
      ensures forall h :: Resolves(h) <==> old(Resolves(h)) && h != Handle(tag, id, old(cells[id].generation))
    {
      hide Listed, Freed, Parted, Stamped, Buried, Values, Names;
      ghost var c, h := cells[..], Handle(tag, id, cells[id].generation);
      ListedFacts(c, g.order, head, tail);
      RemoveLinks(c, g, head, tail, freeHead, used, at, h);
      RemoveMarks(c, g, used, tag, at, h, freeHead);
      RemoveParted(g, used, at, h);
      RemoveValues(c, g.order, at, freeHead);
      RemoveNames(c, g.order, tag, at, freeHead);
      var nd := cells[id];
      var a, b := nd.prev, nd.next;
      value := nd.val;
      Detach(id, a, b);
      count := count - 1;
      if cells[id].generation != LAST {
        cells[id] := cells[id].(generation := cells[id].generation + 1, next := freeHead);
        freeHead := id;
      }
      assert cells[..] == Released(Detached(c, id), id, old(freeHead));
      g := Buried1(g, at, h);
    }

    method Detach(id: nat, a: nat, b: nat)
      requires id < cells.Length && a == cells[id].prev && b == cells[id].next
      requires (a == NIL || a < cells.Length) && (b == NIL || b < cells.Length)
      modifies this`head, this`tail, cells
      ensures cells[..] == Detached(old(cells[..]), id)
      ensures head == (if a == NIL then b else old(head)) && tail == (if b == NIL then a else old(tail))
    {
      cells[id] := cells[id].(live := false, val := 0);
      if a != NIL { cells[a] := cells[a].(next := b); } else { head := b; }
      if b != NIL { cells[b] := cells[b].(prev := a); } else { tail := a; }
    }

    /** dlist_arena.h:35-42. */
    method Grow()
      requires Valid() && cells.Length <= 0x7FFF_FFFF
      modifies this`cells
      ensures Valid() && fresh(cells) && cells.Length > old(cells.Length) && Items() == old(Items())
      ensures forall h :: Resolves(h) <==> old(Resolves(h))
    {
      hide Listed, Freed, Parted, Stamped, Buried, Values, Names;
      ghost var c := cells[..];
      var n := new Node[2 * cells.Length](i => ZERO);
      forall i | 0 <= i < cells.Length { n[i] := cells[i]; }
      assert n[..] == c + seq(|c|, i => ZERO);
      ListedFacts(c, g.order, head, tail);
      GrownKeeps(c, |c|, g, head, tail, freeHead, used, tag);
      GrownValues(c, |c|, g.order);
      GrownNames(c, |c|, g.order, tag);
      cells := n;
    }

    /** A slot to link: a released one first, else a fresh one (dlist_arena.h:75-81). */
    method Take() returns (id: nat)
      requires Valid() && Room()
      modifies this`freeHead, this`used, this`cells, this`g
      ensures cells == old(cells) || fresh(cells)
      ensures Taken(id) && g == old(g).(chain := g.chain) && used <= old(used) + 1
      ensures NewSlot(id, old(freeHead), old(used), old(cells[..]))
      ensures Values(cells[..], g.order) == old(Items())
      ensures forall h :: Resolves(h) <==> old(Resolves(h))
    {
      hide Listed, Freed, Parted, Stamped, Buried, Values, Names;
      if freeHead != NIL {
        TakeFirst(cells[..], g, freeHead, used, tag);
        id := freeHead;
        freeHead := cells[id].next;
        g := g.(chain := g.chain[1..]);
        ListedFacts(cells[..], g.order, head, tail);
      } else {
        StampedBound(cells[..], g, used);
        if used == cells.Length { Grow(); }
        id := TakeFreshSlot();
      }
    }

    method TakeFreshSlot() returns (id: nat)
      requires Valid() && used < cells.Length
      modifies this`used
      ensures Taken(id) && Values(cells[..], g.order) == old(Items()) && used == old(used) + 1
      ensures id == old(used) && id < cells.Length && cells[id].generation == 0
      ensures forall h :: Resolves(h) <==> old(Resolves(h))
    {
      hide Listed, Freed, Parted, Stamped, Buried, Values, Names;
      ListedFacts(cells[..], g.order, head, tail);
      TakeFresh(cells[..], g, used, tag);
      FreshStamp(cells[..], g, used);
      id := used;
      used := used + 1;
    }

    /** The slot released last, as it was, else the next one never used, at generation 0. */
    ghost predicate NewSlot(id: nat, free: nat, unused: nat, c: seq<Node>)
      reads this, cells
    {
      && id < cells.Length
      && if free != NIL then id == free < |c| && cells[id].generation == c[id].generation
         else id == unused && cells[id].generation == 0
    }

    /** Valid but for the slot id, which has left the free ones and is not linked. */
    ghost predicate Taken(id: nat)
      reads this, cells
    {
      && cells.Length > 0
      && Listed(cells[..], g.order, head, tail) && Freed(cells[..], g.chain, freeHead) && Parted(g, used, {id})
      && Stamped(cells[..], g, used) && Buried(cells[..], g, used, tag)
      && count == |g.order| && Below(g.order, cells.Length)
    }

    /** dlist_arena.h:73-95: a node holding x in gap k, under a handle never given out before. */
    method InsertBetween(a: nat, b: nat, x: nat, ghost k: nat) returns (id: nat)
      requires Valid() && Room() && k <= |g.order| && a == Left(g.order, k) && b == Right(g.order, k)
      modifies this`used, this`count, this`freeHead, this`head, this`tail, this`cells, this`g, cells
      ensures cells == old(cells) || fresh(cells)
      ensures Valid() && Items() == Inserted(old(Items()), k, x)
      ensures g == old(g).(chain := g.chain, order := Inserted(old(g.order), k, id))
      ensures id < cells.Length && Unused(Handle(tag, id, cells[id].generation), old(g)) && used <= old(used) + 1
      ensures NewSlot(id, old(freeHead), old(used), old(cells[..]))
      ensures forall h :: Resolves(h) <==> old(Resolves(h)) || h == Handle(tag, id, cells[id].generation)
    {
      hide Listed, Freed, Parted, Stamped, Buried, Values, Names, Inserted;
      id := Take();
      ghost var c := cells[..];
      InsertKeeps(c, g, head, tail, freeHead, used, tag, k, id, x);
      TakenUnused(c, g, used, tag, id);
      LinkedMarks(c, id, x, a, b);
      ListedFacts(c, g.order, head, tail);
      InsertValues(c, g.order, k, id, x, a, b);
      InsertNames(c, g.order, tag, k, id, x, a, b);
      Link(id, x, a, b);
      count := count + 1;
      g := Inserted1(g, k, id);
    }

    method Link(id: nat, x: nat, a: nat, b: nat)
      requires id < cells.Length && id != a && id != b && used <= cells.Length <= NIL
      requires (a == NIL || (a < used && cells[a].live)) && (b == NIL || (b < used && cells[b].live))
      modifies this`head, this`tail, cells
      ensures cells[..] == Linked(old(cells[..]), id, x, a, b)
      ensures head == (if a == NIL then id else old(head)) && tail == (if b == NIL then id else old(tail))
    {
      cells[id] := cells[id].(val := x, prev := a, next := b, live := true);
      if a < used && cells[a].live { cells[a] := cells[a].(next := id); }
      if b < used && cells[b].live { cells[b] := cells[b].(prev := id); }
      if a == NIL { head := id; }
      if b == NIL { tail := id; }
    }

    /** dlist_iterator.h:16 on the arena: the value of a listed node. */
    method Put(id: nat, x: nat, ghost at: nat)
      requires Valid() && at < |g.order| && id == g.order[at] < cells.Length
      modifies cells
      ensures Valid() && Items() == old(Items())[at := x]
      ensures forall h :: Resolves(h) <==> old(Resolves(h))
    {
      hide Threaded, Chained, Parted, Values;
      PutKeeps(cells[..], g, at, x);
      PutValues(cells[..], g.order, at, x) by { ListedFacts(cells[..], g.order, head, tail); }
      cells[id] := cells[id].(val := x);
      assert cells[..] == old(cells[..])[id := old(cells[id]).(val := x)];
    }
  }

  lemma ListedFacts(c: seq<Node>, order: seq<nat>, head: nat, tail: nat)
    requires Listed(c, order, head, tail)
    ensures Distinct(order) && Below(order, |c|) && |c| <= NIL
  {}

  lemma RemoveValues(c: seq<Node>, order: seq<nat>, at: nat, free: nat)
    requires Distinct(order) && Below(order, |c|) && at < |order|
    requires var id := order[at]; (c[id].prev == NIL || c[id].prev < |c|) && (c[id].next == NIL || c[id].next < |c|)
    ensures Below(Cut(order, at), |c|)
    ensures Values(Released(Detached(c, order[at]), order[at], free), Cut(order, at)) == Cut(Values(c, order), at)
  {
    hide Detached;
    DetachedMarks(c, order[at]);
    var v, w := Values(Released(Detached(c, order[at]), order[at], free), Cut(order, at)), Cut(Values(c, order), at);
    forall i | 0 <= i < |v| ensures v[i] == w[i] {
      assert order[at] != order[if i < at then i else i + 1];
    }
  }

  /** The handle was never given to a node before. */
  ghost predicate Unused(h: Handle, g: Layout) {
    h !in g.dead && h.id !in g.order
  }

  lemma FreshStamp(c: seq<Node>, g: Layout, used: nat)
    requires Stamped(c, g, used) && used < |c|
    ensures c[used].generation == 0
  {}

  lemma StampedBound(c: seq<Node>, g: Layout, used: nat)
    requires Stamped(c, g, used)
    ensures used <= |c|
  {}

  /** A full arena has used its 2^31 slots or more. */
  lemma FullArena(a: Arena)
    requires a.Valid() && !a.Room()
    ensures a.used > 0x7FFF_FFFF
  {
    hide Listed, Freed, Parted, Buried;
  }

  lemma TakenUnused(c: seq<Node>, g: Layout, used: nat, tag: nat, id: nat)
    requires Parted(g, used, {id}) && Buried(c, g, used, tag) && id < |c|
    ensures Unused(Handle(tag, id, c[id].generation), g)
  {
    assert id in {id};
  }

  lemma GrownValues(c: seq<Node>, n: nat, order: seq<nat>)
    requires Below(order, |c|)
    ensures Below(order, |c| + n) && Values(c + seq(n, i => ZERO), order) == Values(c, order)
  {}

  lemma InsertValues(c: seq<Node>, order: seq<nat>, k: nat, id: nat, x: nat, a: nat, b: nat)
    requires Below(order, |c|) && k <= |order| && id < |c| && id !in order && id != a && id != b
    requires (a == NIL || a < |c|) && (b == NIL || b < |c|)
    ensures Below(Inserted(order, k, id), |c|)
    ensures Values(Linked(c, id, x, a, b), Inserted(order, k, id)) == Inserted(Values(c, order), k, x)
  {
    hide Linked;
    LinkedMarks(c, id, x, a, b);
    var v, w := Values(Linked(c, id, x, a, b), Inserted(order, k, id)), Inserted(Values(c, order), k, x);
    forall i | 0 <= i < |v| ensures v[i] == w[i] {
      if i != k { assert order[if i < k then i else i - 1] in order; }
    }
  }

  lemma PutKeeps(c: seq<Node>, g: Layout, at: nat, x: nat)
    requires at < |g.order| && g.order[at] < |c|
    ensures var c' := c[g.order[at] := c[g.order[at]].(val := x)]; Prevs(c') == Prevs(c) && Nexts(c') == Nexts(c)
  {}

  lemma PutValues(c: seq<Node>, order: seq<nat>, at: nat, x: nat)
    requires Distinct(order) && Below(order, |c|) && at < |order|
    ensures Values(c[order[at] := c[order[at]].(val := x)], order) == Values(c, order)[at := x]
  {}

  // ---- handles ----

  lemma RemoveNames(c: seq<Node>, order: seq<nat>, tag: nat, at: nat, free: nat)
    requires Distinct(order) && Below(order, |c|) && at < |order|
    requires var id := order[at]; (c[id].prev == NIL || c[id].prev < |c|) && (c[id].next == NIL || c[id].next < |c|)
    ensures var id := order[at];
            forall h :: Names(Released(Detached(c, id), id, free), Cut(order, at), tag, h) <==>
                        Names(c, order, tag, h) && h != Handle(tag, id, c[id].generation)
  {
    hide Detached, Cut;
    CutFacts(order, at);
    DetachedMarks(c, order[at]);
  }

  lemma InsertNames(c: seq<Node>, order: seq<nat>, tag: nat, k: nat, id: nat, x: nat, a: nat, b: nat)
    requires Distinct(order) && k <= |order| && id < |c| && id !in order && id != a && id != b
    requires (a == NIL || a < |c|) && (b == NIL || b < |c|)
    ensures forall h :: Names(Linked(c, id, x, a, b), Inserted(order, k, id), tag, h) <==>
                        Names(c, order, tag, h) || h == Handle(tag, id, c[id].generation)
  {
    hide Linked, Inserted;
    LinkedMarks(c, id, x, a, b);
    InsertedMembers(order, k, id);
  }

  lemma GrownNames(c: seq<Node>, n: nat, order: seq<nat>, tag: nat)
    requires Below(order, |c|)
    ensures forall h :: Names(c + seq(n, i => ZERO), order, tag, h) <==> Names(c, order, tag, h)
  {
    forall h ensures Names(c + seq(n, i => ZERO), order, tag, h) <==> Names(c, order, tag, h) {
      if h.id in order {
        var i :| 0 <= i < |order| && order[i] == h.id;
      }
    }
  }
}
