/** Lists threaded through arrays: a doubly linked list through prev and next, and a free chain
    through next alone, each seen as the sequence of its slots. The lists of benchmarks/native/lru.c
    and benchmarks/native/dlist_arena.h share these. */
module Threads {
  import opened Sequences

  /** No slot. */
  const NIL: nat := 0xFFFF_FFFF

  /** The neighbours of position i, NIL past either end. */
  function Before(s: seq<nat>, i: nat): nat
    requires i < |s|
  {
    if i == 0 then NIL else s[i - 1]
  }

  function After(s: seq<nat>, i: nat): nat
    requires i < |s|
  {
    if i + 1 == |s| then NIL else s[i + 1]
  }

  /** next and next' agree on every slot outside `order`. */
  ghost predicate SameOutside(order: seq<nat>, next: seq<nat>, next': seq<nat>) {
    |next'| == |next| && forall x :: 0 <= x < |next| && x !in order ==> next'[x] == next[x]
  }

  /** prev and next thread the slots of `order`, oldest first, between head and tail. */
  ghost predicate Threaded(order: seq<nat>, prev: seq<nat>, next: seq<nat>, head: nat, tail: nat) {
    && |prev| == |next| <= NIL
    && Distinct(order)
    && Below(order, |next|)
    && head == (if order == [] then NIL else order[0])
    && tail == (if order == [] then NIL else order[|order| - 1])
    && (forall i :: 0 <= i < |order| ==> prev[order[i]] == Before(order, i))
    && (forall i :: 0 <= i < |order| ==> next[order[i]] == After(order, i))
  }

  /** The released slots, chained through next from `free`. */
  ghost predicate Chained(chain: seq<nat>, next: seq<nat>, free: nat) {
    && |next| <= NIL
    && Below(chain, |next|)
    && free == (if chain == [] then NIL else chain[0])
    && (forall i :: 0 <= i < |chain| ==> next[chain[i]] == After(chain, i))
  }

  /** The slots without the one at `at`. */
  function Cut(order: seq<nat>, at: nat): (cut: seq<nat>)
    requires at < |order|
    ensures |cut| == |order| - 1
  {
    Drop(order, at)
  }

  lemma CutFacts(order: seq<nat>, at: nat)
    requires Distinct(order) && at < |order|
    ensures Distinct(Cut(order, at)) && order[at] !in Cut(order, at)
    ensures forall x :: x in order <==> x in Cut(order, at) || x == order[at]
  {
    forall x | x in order && x != order[at] ensures x in Cut(order, at) {
      var i :| 0 <= i < |order| && order[i] == x;
      assert Cut(order, at)[if i < at then i else i - 1] == x;
    }
  }

  lemma CutNeighbours(order: seq<nat>, at: nat, i: nat)
    requires at < |order| && i < |order| - 1
    ensures var o := if i < at then i else i + 1;
            && Cut(order, at)[i] == order[o]
            && Before(Cut(order, at), i) == Before(order, if o == at + 1 then at else o)
            && After(Cut(order, at), i) == After(order, if o + 1 == at then at else o)
  {}

  /** Unlinking position `at`: the links of the remaining position i. */
  lemma UnthreadAt(order: seq<nat>, prev: seq<nat>, next: seq<nat>, head: nat, tail: nat, at: nat, i: nat)
    requires Threaded(order, prev, next, head, tail) && at < |order| && i < |order| - 1
    ensures var p, q, order' := Before(order, at), After(order, at), Cut(order, at);
            && (q == NIL || q < |prev|) && (p == NIL || p < |next|) && order'[i] < |next|
            && (if q == NIL then prev else prev[q := p])[order'[i]] == Before(order', i)
            && (if p == NIL then next else next[p := q])[order'[i]] == After(order', i)
  {
    hide Cut;
    CutNeighbours(order, at, i);
    var o := if i < at then i else i + 1;
    assert at > 0 ==> (order[at - 1] == order[o] <==> o == at - 1);
    assert at + 1 < |order| ==> (order[at + 1] == order[o] <==> o == at + 1);
  }

  lemma CutEnds(order: seq<nat>, at: nat)
    requires at < |order|
    ensures var r := Cut(order, at);
            r != [] ==> r[0] == order[if at == 0 then 1 else 0]
                        && r[|r| - 1] == order[if at + 1 == |order| then at - 1 else |order| - 1]
  {}

  lemma CutBelow(order: seq<nat>, at: nat, limit: nat)
    requires Below(order, limit) && at < |order|
    ensures Below(Cut(order, at), limit)
  {}

  /** Unlinking position `at`: the ends of the remaining list. */
  lemma UnthreadEnds(order: seq<nat>, prev: seq<nat>, next: seq<nat>, head: nat, tail: nat, at: nat)
    requires Threaded(order, prev, next, head, tail) && at < |order|
    ensures var p, q, order' := Before(order, at), After(order, at), Cut(order, at);
            && prev[order[at]] == p && next[order[at]] == q
            && (p == NIL || p < |next|) && (q == NIL || q < |prev|)
            && (if p == NIL then q else head) == (if order' == [] then NIL else order'[0])
            && (if q == NIL then p else tail) == (if order' == [] then NIL else order'[|order'| - 1])
            && forall i :: 0 <= i < |order'| ==> order'[i] < |next|
  {
    hide Cut, Distinct;
    CutEnds(order, at);
    CutBelow(order, at, |next|);
  }

  lemma Unthread(order: seq<nat>, prev: seq<nat>, next: seq<nat>, head: nat, tail: nat, at: nat)
    requires Threaded(order, prev, next, head, tail) && at < |order|
    ensures var s := order[at]; var p, q := prev[s], next[s];
            && (p == NIL || p < |next|) && (q == NIL || q < |prev|)
            && Threaded(Cut(order, at),
                        if q == NIL then prev else prev[q := p], if p == NIL then next else next[p := q],
                        if p == NIL then q else head, if q == NIL then p else tail)
  {
    hide Distinct, Cut, Before, After;
    var p, q := Before(order, at), After(order, at);
    UnthreadEnds(order, prev, next, head, tail, at);
    var prev', next' := if q == NIL then prev else prev[q := p], if p == NIL then next else next[p := q];
    CutFacts(order, at);
    forall i | 0 <= i < |Cut(order, at)|
      ensures prev'[Cut(order, at)[i]] == Before(Cut(order, at), i)
      ensures next'[Cut(order, at)[i]] == After(Cut(order, at), i)
    {
      UnthreadAt(order, prev, next, head, tail, at, i);
    }
  }

  lemma SnocNeighbours(order: seq<nat>, s: nat, i: nat)
    requires i <= |order|
    ensures var r := order + [s];
            && r[i] == (if i < |order| then order[i] else s)
            && Before(r, i) == (if i < |order| then Before(order, i)
                                else if order == [] then NIL else order[|order| - 1])
            && After(r, i) == (if i + 1 < |order| then order[i + 1] else if i + 1 == |order| then s else NIL)
  {}

  lemma SnocDistinct(order: seq<nat>, s: nat, limit: nat)
    requires Distinct(order) && Below(order, limit) && s !in order && s < limit
    ensures Distinct(order + [s]) && Below(order + [s], limit)
  {}

  lemma Thread(order: seq<nat>, prev: seq<nat>, next: seq<nat>, head: nat, tail: nat, s: nat)
    requires Threaded(order, prev, next, head, tail) && s < |next| && s !in order
    ensures tail == NIL || tail < |next|
    ensures var next' := next[s := NIL];
            Threaded(order + [s], prev[s := tail], if tail == NIL then next' else next'[tail := s],
                     if tail == NIL then s else head, s)
  {
    forall i | 0 <= i < |order| ensures order[i] != s { assert order[i] in order; }
    var order', prev' := order + [s], prev[s := tail];
    var next' := if tail == NIL then next[s := NIL] else next[s := NIL][tail := s];
    SnocDistinct(order, s, |next|);
    forall i | 0 <= i < |order'|
      ensures prev'[order'[i]] == Before(order', i) && next'[order'[i]] == After(order', i)
    {
      SnocNeighbours(order, s, i);
    }
    SnocNeighbours(order, s, 0);
  }

  /** A slot outside the list may be relinked freely. */
  lemma ThreadedIgnores(order: seq<nat>, prev: seq<nat>, next: seq<nat>, head: nat, tail: nat, s: nat, v: nat)
    requires Threaded(order, prev, next, head, tail) && s < |next| && s !in order
    ensures Threaded(order, prev, next[s := v], head, tail)
  {
    forall i | 0 <= i < |order| ensures order[i] != s { assert order[i] in order; }
  }

  lemma ThreadedAt(order: seq<nat>, prev: seq<nat>, next: seq<nat>, head: nat, tail: nat, p: nat)
    requires Threaded(order, prev, next, head, tail) && p < |order|
    ensures order[p] < |next| && next[order[p]] == After(order, p)
    ensures p + 1 < |order| ==> order[p + 1] != NIL
  {}

  lemma LastAt(order: seq<nat>, at: nat)
    requires Distinct(order) && at < |order| && order[at] == order[|order| - 1]
    ensures order == Cut(order, at) + [order[at]]
  {
    assert at == |order| - 1;
  }

  lemma ThreadedSlots(order: seq<nat>, prev: seq<nat>, next: seq<nat>, head: nat, tail: nat)
    requires Threaded(order, prev, next, head, tail)
    ensures Distinct(order) && Below(order, |next|)
    ensures if order == [] then head == NIL && tail == NIL
            else head == order[0] != NIL && tail == order[|order| - 1] != NIL
  {}

  lemma ThreadedLinks(order: seq<nat>, prev: seq<nat>, next: seq<nat>, head: nat, tail: nat, at: nat)
    requires Threaded(order, prev, next, head, tail) && at < |order|
    ensures order[at] < |next|
    ensures prev[order[at]] != NIL ==> prev[order[at]] in order
    ensures next[order[at]] != NIL ==> next[order[at]] in order
  {
    if at > 0 { assert order[at - 1] in order; }
    if at + 1 < |order| { assert order[at + 1] in order; }
  }
}
