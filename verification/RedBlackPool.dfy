/** The red-black map of benchmarks/native/redblack.h in its own form: a pool of cells linked by
    indices (NULL = -1), mutated in place, with a free list through the left links. Each method is
    proved to compute what its namesake in RedBlackTree says. */
module RedBlackPool {
  import opened Sequences
  import opened RedBlackTree

  datatype Cell = Cell(red: bool, k: nat, v: nat, l: int, r: int)

  const NULL: int := -1

  // ---- trees in memory ----

  function Link(t: Tree): int {
    if t.Leaf? then NULL else t.id
  }

  function CellOf(t: Tree): Cell
    requires t.Node?
  {
    Cell(t.red, t.k, t.v, Link(t.l), Link(t.r))
  }

  function Ids(t: Tree): set<nat> {
    if t.Leaf? then {} else {t.id} + Ids(t.l) + Ids(t.r)
  }

  /** No cell occurs twice: the links form a tree, without sharing or cycles. */
  ghost predicate Unshared(t: Tree) {
    t.Node? ==>
      && Unshared(t.l) && Unshared(t.r)
      && t.id !in Ids(t.l) && t.id !in Ids(t.r) && Ids(t.l) !! Ids(t.r)
  }

  /** Every node of t is in its cell. */
  ghost predicate Stored(m: seq<Cell>, t: Tree) {
    t.Node? ==> t.id < |m| && m[t.id] == CellOf(t) && Stored(m, t.l) && Stored(m, t.r)
  }

  /** Only the cells in w differ. */
  ghost predicate Changed(m: seq<Cell>, m': seq<Cell>, w: set<nat>) {
    |m'| == |m| && forall i :: 0 <= i < |m| && i !in w ==> m'[i] == m[i]
  }

  lemma {:induction false} StoredFrame(m: seq<Cell>, m': seq<Cell>, t: Tree, w: set<nat>)
    requires Stored(m, t) && Changed(m, m', w) && Ids(t) !! w
    ensures Stored(m', t)
  {
    if t.Node? {
      StoredFrame(m, m', t.l, w);
      StoredFrame(m, m', t.r, w);
    }
  }

  /** A tree whose top three cells were rewritten around four untouched subtrees. */
  lemma Rebuilt(m: seq<Cell>, m': seq<Cell>, o: Tree)
    requires o.Node? && o.l.Node? && o.r.Node? && Unshared(o)
    requires Stored(m, o.l.l) && Stored(m, o.l.r) && Stored(m, o.r.l) && Stored(m, o.r.r)
    requires Changed(m, m', {o.id, o.l.id, o.r.id}) && o.id < |m| && o.l.id < |m| && o.r.id < |m|
    requires m'[o.id] == CellOf(o) && m'[o.l.id] == CellOf(o.l) && m'[o.r.id] == CellOf(o.r)
    ensures Stored(m', o)
  {
    var w: set<nat> := {o.id, o.l.id, o.r.id};
    assert Unshared(o.l) && Unshared(o.r);
    StoredFrame(m, m', o.l.l, w);
    StoredFrame(m, m', o.l.r, w);
    StoredFrame(m, m', o.r.l, w);
    StoredFrame(m, m', o.r.r, w);
  }

  /** What is known of a child c of a stored node t. */
  ghost predicate Kid(m: seq<Cell>, t: Tree, c: Tree)
    requires t.Node?
  {
    && Stored(m, c) && Unshared(c)
    && (c.Node? ==>
          && c.id < |m| && m[c.id] == CellOf(c) && c.id != t.id
          && Stored(m, c.l) && Stored(m, c.r)
          && (c.l.Node? ==> c.l.id < |m| && m[c.l.id] == CellOf(c.l) && c.l.id != c.id && c.l.id != t.id
                            && Stored(m, c.l.l) && Stored(m, c.l.r))
          && (c.r.Node? ==> c.r.id < |m| && m[c.r.id] == CellOf(c.r) && c.r.id != c.id && c.r.id != t.id
                            && Stored(m, c.r.l) && Stored(m, c.r.r)))
  }

  /** A stored tree's root, children and grandchildren, and that their cells differ. */
  lemma Opened(m: seq<Cell>, t: Tree)
    requires t.Node? && Stored(m, t) && Unshared(t)
    ensures t.id < |m| && m[t.id] == CellOf(t)
    ensures Kid(m, t, t.l) && Kid(m, t, t.r)
    ensures t.l.Node? && t.r.Node? ==> t.l.id != t.r.id
  {
    TopIds(t);
    if t.l.Node? { TopIds(t.l); }
    if t.r.Node? { TopIds(t.r); }
  }

  /** A tree of which only the root and one child were rewritten. */
  lemma Recoloured(m: seq<Cell>, m': seq<Cell>, o: Tree, c: Tree)
    requires o.Node? && c.Node? && (c == o.l || c == o.r) && Unshared(o)
    requires Stored(m, c.l) && Stored(m, c.r) && Stored(m, if c == o.l then o.r else o.l)
    requires Changed(m, m', {o.id, c.id}) && o.id < |m| && c.id < |m|
    requires m'[o.id] == CellOf(o) && m'[c.id] == CellOf(c)
    ensures Stored(m', o)
  {
    var w: set<nat> := {o.id, c.id};
    var d := if c == o.l then o.r else o.l;
    assert Unshared(c) && c.id in Ids(c);
    StoredFrame(m, m', c.l, w);
    StoredFrame(m, m', c.r, w);
    StoredFrame(m, m', d, w);
  }

  // ---- rotations neither lose nor share cells ----

  function IdSeq(t: Tree): seq<nat> {
    if t.Leaf? then [] else IdSeq(t.l) + [t.id] + IdSeq(t.r)
  }

  lemma DistinctAround(a: seq<nat>, x: nat, b: seq<nat>)
    ensures Distinct(a + [x] + b) <==>
            Distinct(a) && Distinct(b) && x !in a && x !in b && forall y :: y in a ==> y !in b
    ensures forall y :: y in a + [x] + b <==> y in a || y == x || y in b
  {
    var s := a + [x] + b;
    assert s[|a|] == x;
    forall y ensures y in s <==> y in a || y == x || y in b {}
    assert forall i :: 0 <= i < |a| ==> s[i] == a[i];
    assert forall i :: 0 <= i < |b| ==> s[|a| + 1 + i] == b[i];
    if Distinct(s) {
      forall i, j | 0 <= i < |a| && 0 <= j < |b| ensures a[i] != b[j] {
        assert s[i] != s[|a| + 1 + j];
      }
      forall i | 0 <= i < |a| ensures a[i] != x { assert s[i] != s[|a|]; }
      assert Distinct(a);
      forall i, j | 0 <= i < j < |b| ensures b[i] != b[j] {
        assert s[|a| + 1 + i] != s[|a| + 1 + j];
      }
      forall i | 0 <= i < |b| ensures b[i] != x {
        assert s[|a| + 1 + i] != s[|a|];
      }
    }
    if Distinct(a) && Distinct(b) && x !in a && x !in b && forall y :: y in a ==> y !in b {
      forall i, j | 0 <= i < j < |s| ensures s[i] != s[j] {
        if i < |a| { assert s[i] in a; }
        if j > |a| { assert s[j] == b[j - |a| - 1]; }
        if i > |a| { assert s[i] == b[i - |a| - 1]; }
      }
    }
  }

  lemma {:induction false} IdSeqMeans(t: Tree)
    ensures forall i :: i in Ids(t) <==> i in IdSeq(t)
    ensures Unshared(t) <==> Distinct(IdSeq(t))
  {
    if t.Node? {
      IdSeqMeans(t.l);
      IdSeqMeans(t.r);
      DistinctAround(IdSeq(t.l), t.id, IdSeq(t.r));
      assert Ids(t.l) !! Ids(t.r) <==> forall y :: y in IdSeq(t.l) ==> y !in IdSeq(t.r);
    }
  }

  lemma SameIds(t: Tree, o: Tree)
    requires IdSeq(o) == IdSeq(t)
    ensures Ids(o) == Ids(t) && (Unshared(o) <==> Unshared(t))
  {
    IdSeqMeans(t);
    IdSeqMeans(o);
  }

  lemma RotateIds(t: Tree)
    requires t.Node?
    ensures t.l.Node? ==> IdSeq(t) == IdSeq(t.l.l) + [t.l.id] + IdSeq(t.(l := t.l.r))
    ensures t.r.Node? ==> IdSeq(t) == IdSeq(t.(r := t.r.l)) + [t.r.id] + IdSeq(t.r.r)
  {
    if t.l.Node? { ReassociateIds(IdSeq(t.l.l), t.l.id, IdSeq(t.l.r), t.id, IdSeq(t.r)); }
    if t.r.Node? { ReassociateIds(IdSeq(t.l), t.id, IdSeq(t.r.l), t.r.id, IdSeq(t.r.r)); }
  }

  lemma ReassociateIds(a: seq<nat>, x: nat, b: seq<nat>, y: nat, c: seq<nat>)
    ensures (a + [x] + b) + [y] + c == a + [x] + (b + [y] + c)
  {}

  lemma BalanceIds(t: Tree)
    requires t.Node?
    ensures IdSeq(Balance(t)) == IdSeq(t)
  {
    var l, r := t.l, t.r;
    if !t.red && IsRed(l) && !IsRed(l.l) && IsRed(l.r) {
      RotateIds(l);
      RotateIds(t.(l := l.r.(l := l.(r := l.r.l))));
    } else if !t.red && !(IsRed(l) && IsRed(l.l)) && IsRed(r) && IsRed(r.l) {
      RotateIds(r);
      RotateIds(t.(r := r.l.(r := r.(l := r.l.r))));
    } else {
      RotateIds(t);
    }
  }

  lemma FixLeftBlackIds(p: Tree)
    requires p.Node? && p.r.Node?
    ensures IdSeq(RedBlackTree.FixLeftBlack(p).t) == IdSeq(p)
  {
    var s := p.r;
    if IsRed(s.r) || !IsRed(s.l) {
      RotateIds(p);
    } else {
      RotateIds(s);
      RotateIds(p.(r := s.l.(r := s.(l := s.l.r))));
    }
  }

  lemma FixRightBlackIds(p: Tree)
    requires p.Node? && p.l.Node?
    ensures IdSeq(RedBlackTree.FixRightBlack(p).t) == IdSeq(p)
  {
    var s := p.l;
    if IsRed(s.l) || !IsRed(s.r) {
      RotateIds(p);
    } else {
      RotateIds(s);
      RotateIds(p.(l := s.r.(l := s.(r := s.r.l))));
    }
  }

  class Pool {
    var cells: array<Cell>
    var used: nat
    var freelist: int
    var root: int
    ghost var free: seq<nat>
    ghost var tree: Tree

    /** redblack.h:46-55. */
    constructor (count: nat)
      ensures Valid() && AsMap(Inorder(tree)) == map[] && tree == Leaf && cells.Length == count && fresh(cells)
    {
      cells := new Cell[count](_ => Cell(false, 0, 0, NULL, NULL));
      used, freelist, root := 0, NULL, NULL;
      free, tree := [], Leaf;
    }

    /** The map in the pool: a shaped search tree with a black root, every cell below `used` either
        in the tree, once, or on the free list, once. */
    ghost predicate Valid()
      reads this, cells
    {
      && Room() && Holds(tree) && root == Link(tree)
      && Shaped(tree) && !IsRed(tree) && Sorted(Inorder(tree))
      && forall i :: 0 <= i < used ==> i in Ids(tree) || i in free
    }

    /** redblack.h:192 and 375: the root becomes black. */
    method Blacken(ghost o: Tree)
      requires Room() && Holds(o) && o.Node? && root == Link(o)
      modifies cells
      ensures Room() && Holds(o.(red := false)) && Ids(o.(red := false)) == Ids(o)
    {
      hide Unshared, Stored, Ids, Chain, Distinct;
      StoredRoot(cells[..], o);
      UnsharedKids(o);
      UnsharedNode(o.(red := false));
      ghost var m := cells[..];
      cells[root] := cells[root].(red := false);
      Relinked(m, cells[..], o.(red := false));
      ChainFrame(m, cells[..], freelist, free, {o.id});
    }

    /** redblack.h:189-194 on the map's root. */
    method Put(k: nat, v: nat) returns (isNew: bool)
      requires Valid() && (k in AsMap(Inorder(tree)) || CanAlloc())
      modifies this`root, this`tree, this`used, this`freelist, this`free, cells
      ensures Valid() && Inorder(tree) == RedBlackTree.Put(old(Inorder(tree)), k, v)
      ensures AsMap(Inorder(tree)) == old(AsMap(Inorder(tree)))[k := v]
      ensures isNew <==> k !in old(AsMap(Inorder(tree)))
    {
      hide Stored, Unshared, Ids, Chain, Distinct, Shaped, Sorted, Ins, AsMap, RedBlackTree.Put;
      ghost var slot, tr := NextSlot(), tree;
      InsertFacts(tr, k, v, slot);
      InsIds(tr, k, v, slot);
      ghost var o := Ins(tr, k, v, slot);
      root, isNew := InsN(root, k, v, tr);
      Blacken(o);
      tree := o.(red := false);
    }

    /** redblack.h:372-377 on the map's root. */
    method Delete(k: nat) returns (old': nat, found: bool)
      requires Valid()
      modifies this`root, this`tree, this`freelist, this`free, cells
      ensures Valid() && Inorder(tree) == Take(old(Inorder(tree)), k)
      ensures AsMap(Inorder(tree)) == old(AsMap(Inorder(tree))) - {k}
      ensures found <==> k in old(AsMap(Inorder(tree)))
      ensures found ==> old' == old(AsMap(Inorder(tree)))[k]
    {
      hide Stored, Unshared, Ids, Chain, Distinct, Shaped, Sorted, AsMap, Take, Gone;
      ghost var tr := tree;
      RemoveFacts(tr, k);
      DelIds(tr, k);
      ghost var o := RedBlackTree.DelV(tr, k).t;
      var f, r;
      f, r, old', found := DelV(root, k, tr);
      root := r;
      if root != NULL { Blacken(o); }
      tree := RedBlackTree.Remove(tr, k);
    }

    /** redblack.h:381-393. */
    method Find(k: nat) returns (found: bool, v: nat)
      requires Valid()
      ensures found <==> k in AsMap(Inorder(tree))
      ensures found ==> v == AsMap(Inorder(tree))[k]
    {
      hide Unshared, Ids, Chain, Distinct, Shaped, Sorted, AsMap;
      ghost var hi := Bounded(Inorder(tree));
      SearchIsGet(tree, k, hi);
      var t := root;
      ghost var sub := tree;
      v := 0;
      while t != NULL
        invariant t == Link(sub) && Stored(cells[..], sub) && Search(sub, k) == Search(tree, k)
        decreases sub
      {
        if k < cells[t].k {
          t, sub := cells[t].l, sub.l;
        } else if k > cells[t].k {
          t, sub := cells[t].r, sub.r;
        } else {
          return true, cells[t].v;
        }
      }
      found := false;
    }

    /** redblack.h:433-438 on a subtree. */
    method Walk<A>(t: int, lo: nat, hi: nat, c: A, go: bool, step: (A, nat, nat) -> A, ghost tr: Tree) returns (r: A)
      requires t == Link(tr) && Stored(cells[..], tr)
      ensures r == RedBlackTree.Range(tr, lo, hi, c, go, step)
      decreases tr
    {
      if !go || t == NULL { return c; }
      StoredRoot(cells[..], tr);
      var x := cells[t];
      var c1 := Walk(x.l, lo, hi, c, lo < x.k, step, tr.l);
      var c2 := if lo <= x.k < hi then step(c1, x.k, x.v) else c1;
      r := Walk(x.r, lo, hi, c2, x.k < hi, step, tr.r);
    }

    /** redblack.h:433-438 on the map: the entries with lo <= key < hi, folded in key order. */
    method Range<A>(lo: nat, hi: nat, c: A, step: (A, nat, nat) -> A) returns (r: A)
      requires Valid()
      ensures r == Folded(Between(Inorder(tree), lo, hi), c, step)
    {
      hide Stored, Unshared, Ids, Chain, Distinct, Shaped, Sorted;
      FoldInIs(Inorder(tree), lo, hi, c, step);
      ghost var top := Bounded(Inorder(tree));
      RangeIsFold(tree, lo, hi, c, step, top);
      r := Walk(root, lo, hi, c, true, step, tree);
    }

    /** redblack.h:412-430. */
    method LowerBound(k: nat) returns (found: bool, ok: nat, ov: nat)
      requires Valid()
      ensures var m := AsMap(Inorder(tree));
              if found then ok >= k && ok in m && m[ok] == ov && forall x :: x in m && x >= k ==> ok <= x
              else forall x :: x in m ==> x < k
    {
      hide Unshared, Ids, Chain, Distinct, Shaped, Sorted, FirstAtLeast, AsMap;
      LeastAtLeast(Inorder(tree), k);
      ghost var hi := Bounded(Inorder(tree));
      LowerIsFirst(tree, k, None, hi);
      var t, best := root, NULL;
      ghost var sub, b: Option<Entry> := tree, None;
      ok, ov := 0, 0;
      while t != NULL
        invariant t == Link(sub) && Stored(cells[..], sub) && Lower(sub, k, b) == Lower(tree, k, None)
        invariant if best == NULL then b == None
                  else 0 <= best < cells.Length && b == Some(Entry(cells[best].k, cells[best].v))
        decreases sub
      {
        if cells[t].k < k {
          t, sub := cells[t].r, sub.r;
        } else if cells[t].k == k {
          return true, cells[t].k, cells[t].v;
        } else {
          best, b := t, Some(Entry(sub.k, sub.v));
          t, sub := cells[t].l, sub.l;
        }
      }
      if best == NULL { return false, 0, 0; }
      return true, cells[best].k, cells[best].v;
    }

    /** The cells below `used` that are on the free list, chained through their left links. */
    ghost predicate Room()
      reads this, cells
    {
      used <= cells.Length && Chain(cells[..], freelist, free) && Distinct(free) && forall i :: i in free ==> i < used
    }

    /** t is in the pool, apart from the free list. */
    ghost predicate Holds(t: Tree)
      reads this, cells
    {
      Stored(cells[..], t) && Unshared(t) && Apart(Ids(t), used, free)
    }

    /** The slot the next allocation takes. */
    ghost function NextSlot(): nat
      reads this
    {
      if free != [] then free[0] else used
    }

    ghost predicate CanAlloc()
      reads this
    {
      free != [] || used < cells.Length
    }

    /** redblack.h:62-75. The pool must not be exhausted: the C code exits when it is. */
    method Alloc() returns (n: int)
      requires Room() && CanAlloc()
      modifies this`used, this`freelist, this`free, cells
      ensures Room() && n == old(NextSlot()) && n < cells.Length && cells[n].l == cells[n].r == NULL
      ensures if old(free) != [] then free == old(free)[1..] && used == old(used)
              else free == [] && used == old(used) + 1
      ensures n < used && n !in free && Changed(old(cells[..]), cells[..], {old(NextSlot())})
    {
      n := freelist;
      if n != NULL {
        freelist := cells[n].l;
        ChainTail(cells[..], n, free);
        assert free[0] in free;
        free := free[1..];
      } else {
        n := used;
        used := used + 1;
      }
      ghost var m := cells[..];
      cells[n] := cells[n].(l := NULL, r := NULL);
      ChainFrame(m, cells[..], freelist, free, {old(NextSlot())});
    }

    /** redblack.h:77-80. */
    method Release(n: int)
      requires Room() && 0 <= n < used && n !in free
      modifies this`freelist, this`free, cells
      ensures Room() && free == [n] + old(free) && Changed(old(cells[..]), cells[..], {n as nat})
    {
      ghost var m := cells[..];
      cells[n] := cells[n].(l := freelist);
      ChainFrame(m, cells[..], freelist, free, {n as nat});
      freelist := n;
      free := [n] + free;
    }

    /** redblack.h:92-99, bal_ll: rotate right. The stores into one node are grouped. */
    method BalanceLL(t: int, l: int, a: int, ghost tr: Tree)
      requires tr.Node? && !tr.red && IsRed(tr.l) && IsRed(tr.l.l)
      requires Stored(cells[..], tr) && Unshared(tr)
      requires t == tr.id && l == tr.l.id && a == tr.l.l.id
      modifies cells
      ensures Stored(cells[..], RedBlackTree.Balance(tr)) && Changed(old(cells[..]), cells[..], Ids(tr))
    {
      hide Unshared, Stored, Ids;
      Opened(cells[..], tr);
      BalanceIds(tr);
      SameIds(tr, RedBlackTree.Balance(tr));
      cells[t] := cells[t].(l := cells[l].r, red := false);
      cells[l] := cells[l].(r := t, red := true);
      cells[a] := cells[a].(red := false);
      Rebuilt(old(cells[..]), cells[..], RedBlackTree.Balance(tr));
      TopIds(tr);
    }

    /** redblack.h:101-110, bal_lr: rotate left then right. */
    method BalanceLR(t: int, l: int, m: int, ghost tr: Tree)
      requires tr.Node? && !tr.red && IsRed(tr.l) && !IsRed(tr.l.l) && IsRed(tr.l.r)
      requires Stored(cells[..], tr) && Unshared(tr)
      requires t == tr.id && l == tr.l.id && m == tr.l.r.id
      modifies cells
      ensures Stored(cells[..], RedBlackTree.Balance(tr)) && Changed(old(cells[..]), cells[..], Ids(tr))
    {
      hide Unshared, Stored, Ids;
      Opened(cells[..], tr);
      BalanceIds(tr);
      SameIds(tr, RedBlackTree.Balance(tr));
      cells[l] := cells[l].(r := cells[m].l, red := false);
      cells[t] := cells[t].(l := cells[m].r, red := false);
      cells[m] := cells[m].(l := l, r := t, red := true);
      Rebuilt(old(cells[..]), cells[..], RedBlackTree.Balance(tr));
      TopIds(tr);
    }

    /** redblack.h:114-123, bal_rl: rotate right then left. */
    method BalanceRL(t: int, r: int, m: int, ghost tr: Tree)
      requires tr.Node? && !tr.red && IsRed(tr.r) && IsRed(tr.r.l)
      requires !(IsRed(tr.l) && (IsRed(tr.l.l) || IsRed(tr.l.r)))
      requires Stored(cells[..], tr) && Unshared(tr)
      requires t == tr.id && r == tr.r.id && m == tr.r.l.id
      modifies cells
      ensures Stored(cells[..], RedBlackTree.Balance(tr)) && Changed(old(cells[..]), cells[..], Ids(tr))
    {
      hide Unshared, Stored, Ids;
      Opened(cells[..], tr);
      BalanceIds(tr);
      SameIds(tr, RedBlackTree.Balance(tr));
      cells[r] := cells[r].(l := cells[m].r, red := false);
      cells[t] := cells[t].(r := cells[m].l, red := false);
      cells[m] := cells[m].(l := t, r := r, red := true);
      Rebuilt(old(cells[..]), cells[..], RedBlackTree.Balance(tr));
      TopIds(tr);
    }

    /** redblack.h:125-132, bal_rr: rotate left. */
    method BalanceRR(t: int, r: int, d: int, ghost tr: Tree)
      requires tr.Node? && !tr.red && IsRed(tr.r) && !IsRed(tr.r.l) && IsRed(tr.r.r)
      requires !(IsRed(tr.l) && (IsRed(tr.l.l) || IsRed(tr.l.r)))
      requires Stored(cells[..], tr) && Unshared(tr)
      requires t == tr.id && r == tr.r.id && d == tr.r.r.id
      modifies cells
      ensures Stored(cells[..], RedBlackTree.Balance(tr)) && Changed(old(cells[..]), cells[..], Ids(tr))
    {
      hide Unshared, Stored, Ids;
      Opened(cells[..], tr);
      BalanceIds(tr);
      SameIds(tr, RedBlackTree.Balance(tr));
      cells[t] := cells[t].(r := cells[r].l, red := false);
      cells[r] := cells[r].(l := t, red := true);
      cells[d] := cells[d].(red := false);
      Rebuilt(old(cells[..]), cells[..], RedBlackTree.Balance(tr));
      TopIds(tr);
    }

    /** redblack.h:87-135. */
    method Balance(t: int, ghost tr: Tree) returns (o: int)
      requires tr.Node? && t == Link(tr) && Stored(cells[..], tr) && Unshared(tr)
      modifies cells
      ensures var b := RedBlackTree.Balance(tr); o == Link(b) && Stored(cells[..], b)
      ensures Changed(old(cells[..]), cells[..], Ids(tr))
    {
      hide Unshared, Stored, Ids;
      Opened(cells[..], tr);
      if cells[t].red { return t; }
      var l, r := cells[t].l, cells[t].r;
      if l != NULL && cells[l].red {
        var a := cells[l].l;
        if a != NULL && cells[a].red {
          BalanceLL(t, l, a, tr);
          return l;
        }
        var m := cells[l].r;
        if m != NULL && cells[m].red {
          BalanceLR(t, l, m, tr);
          return m;
        }
      }
      if r != NULL && cells[r].red {
        var m := cells[r].l;
        if m != NULL && cells[m].red {
          BalanceRL(t, r, m, tr);
          return m;
        }
        var d := cells[r].r;
        if d != NULL && cells[d].red {
          BalanceRR(t, r, d, tr);
          return r;
        }
      }
      return t;
    }

    /** redblack.h:211-218, fl_b1: the sibling's right child is red. */
    method FixLeftFar(q: int, s: int, f: int, ghost p: Tree)
      requires p.Node? && p.r.Node? && IsRed(p.r.r)
      requires Stored(cells[..], p) && Unshared(p)
      requires q == p.id && s == p.r.id && f == p.r.r.id
      modifies cells
      ensures Stored(cells[..], RedBlackTree.FixLeftBlack(p).t) && Changed(old(cells[..]), cells[..], Ids(p))
    {
      hide Unshared, Stored, Ids;
      Opened(cells[..], p);
      FixLeftBlackIds(p);
      SameIds(p, RedBlackTree.FixLeftBlack(p).t);
      var pred := cells[q].red;
      cells[q] := cells[q].(r := cells[s].l, red := false);
      cells[s] := cells[s].(l := q, red := pred);
      cells[f] := cells[f].(red := false);
      Rebuilt(old(cells[..]), cells[..], RedBlackTree.FixLeftBlack(p).t);
      TopIds(p);
    }

    /** redblack.h:220-229, fl_b2c: the sibling's left child is red. */
    method FixLeftNear(q: int, s: int, m: int, ghost p: Tree)
      requires p.Node? && p.r.Node? && !IsRed(p.r.r) && IsRed(p.r.l)
      requires Stored(cells[..], p) && Unshared(p)
      requires q == p.id && s == p.r.id && m == p.r.l.id
      modifies cells
      ensures Stored(cells[..], RedBlackTree.FixLeftBlack(p).t) && Changed(old(cells[..]), cells[..], Ids(p))
    {
      hide Unshared, Stored, Ids;
      Opened(cells[..], p);
      FixLeftBlackIds(p);
      SameIds(p, RedBlackTree.FixLeftBlack(p).t);
      var pred := cells[q].red;
      cells[q] := cells[q].(r := cells[m].l, red := false);
      cells[s] := cells[s].(l := cells[m].r, red := false);
      cells[m] := cells[m].(l := q, r := s, red := pred);
      Rebuilt(old(cells[..]), cells[..], RedBlackTree.FixLeftBlack(p).t);
      TopIds(p);
    }

    /** redblack.h:230-233, fl_b3: a black sibling with two black children becomes red. */
    method FixLeftRecolour(q: int, s: int, ghost p: Tree)
      requires p.Node? && p.r.Node? && !IsRed(p.r.r) && !IsRed(p.r.l)
      requires Stored(cells[..], p) && Unshared(p)
      requires q == p.id && s == p.r.id
      modifies cells
      ensures Stored(cells[..], RedBlackTree.FixLeftBlack(p).t) && Changed(old(cells[..]), cells[..], Ids(p))
    {
      hide Unshared, Stored, Ids;
      Opened(cells[..], p);
      cells[s] := cells[s].(red := true);
      cells[q] := cells[q].(red := false);
      FixLeftBlackIds(p);
      SameIds(p, RedBlackTree.FixLeftBlack(p).t);
      Recoloured(old(cells[..]), cells[..], RedBlackTree.FixLeftBlack(p).t, RedBlackTree.FixLeftBlack(p).t.r);
      TopIds(p);
    }

    /** redblack.h:207-234. */
    method FixLeftBlack(q: int, ghost p: Tree) returns (uf: bool, o: int)
      requires p.Node? && p.r.Node? && q == p.id && Stored(cells[..], p) && Unshared(p)
      modifies cells
      ensures var d := RedBlackTree.FixLeftBlack(p); uf == d.uf && o == Link(d.t) && Stored(cells[..], d.t)
      ensures Changed(old(cells[..]), cells[..], Ids(p))
    {
      hide Unshared, Stored, Ids;
      Opened(cells[..], p);
      var s := cells[q].r;
      var pred := cells[q].red;
      var f := cells[s].r;
      if f != NULL && cells[f].red {
        FixLeftFar(q, s, f, p);
        return false, s;
      }
      var m := cells[s].l;
      if m != NULL && cells[m].red {
        FixLeftNear(q, s, m, p);
        return false, m;
      }
      FixLeftRecolour(q, s, p);
      return !pred, q;
    }

    /** redblack.h:265-272, fr_b1: the sibling's left child is red. */
    method FixRightFar(q: int, s: int, f: int, ghost p: Tree)
      requires p.Node? && p.l.Node? && IsRed(p.l.l)
      requires Stored(cells[..], p) && Unshared(p)
      requires q == p.id && s == p.l.id && f == p.l.l.id
      modifies cells
      ensures Stored(cells[..], RedBlackTree.FixRightBlack(p).t) && Changed(old(cells[..]), cells[..], Ids(p))
    {
      hide Unshared, Stored, Ids;
      Opened(cells[..], p);
      FixRightBlackIds(p);
      SameIds(p, RedBlackTree.FixRightBlack(p).t);
      var pred := cells[q].red;
      cells[q] := cells[q].(l := cells[s].r, red := false);
      cells[s] := cells[s].(r := q, red := pred);
      cells[f] := cells[f].(red := false);
      Rebuilt(old(cells[..]), cells[..], RedBlackTree.FixRightBlack(p).t);
      TopIds(p);
    }

    /** redblack.h:274-283, fr_b2c: the sibling's right child is red. */
    method FixRightNear(q: int, s: int, m: int, ghost p: Tree)
      requires p.Node? && p.l.Node? && !IsRed(p.l.l) && IsRed(p.l.r)
      requires Stored(cells[..], p) && Unshared(p)
      requires q == p.id && s == p.l.id && m == p.l.r.id
      modifies cells
      ensures Stored(cells[..], RedBlackTree.FixRightBlack(p).t) && Changed(old(cells[..]), cells[..], Ids(p))
    {
      hide Unshared, Stored, Ids;
      Opened(cells[..], p);
      FixRightBlackIds(p);
      SameIds(p, RedBlackTree.FixRightBlack(p).t);
      var pred := cells[q].red;
      cells[q] := cells[q].(l := cells[m].r, red := false);
      cells[s] := cells[s].(r := cells[m].l, red := false);
      cells[m] := cells[m].(r := q, l := s, red := pred);
      Rebuilt(old(cells[..]), cells[..], RedBlackTree.FixRightBlack(p).t);
      TopIds(p);
    }

    /** redblack.h:284-287, fr_b3: a black sibling with two black children becomes red. */
    method FixRightRecolour(q: int, s: int, ghost p: Tree)
      requires p.Node? && p.l.Node? && !IsRed(p.l.l) && !IsRed(p.l.r)
      requires Stored(cells[..], p) && Unshared(p)
      requires q == p.id && s == p.l.id
      modifies cells
      ensures Stored(cells[..], RedBlackTree.FixRightBlack(p).t) && Changed(old(cells[..]), cells[..], Ids(p))
    {
      hide Unshared, Stored, Ids;
      Opened(cells[..], p);
      cells[s] := cells[s].(red := true);
      cells[q] := cells[q].(red := false);
      FixRightBlackIds(p);
      SameIds(p, RedBlackTree.FixRightBlack(p).t);
      Recoloured(old(cells[..]), cells[..], RedBlackTree.FixRightBlack(p).t, RedBlackTree.FixRightBlack(p).t.l);
      TopIds(p);
    }

    /** redblack.h:261-288. */
    method FixRightBlack(q: int, ghost p: Tree) returns (uf: bool, o: int)
      requires p.Node? && p.l.Node? && q == p.id && Stored(cells[..], p) && Unshared(p)
      modifies cells
      ensures var d := RedBlackTree.FixRightBlack(p); uf == d.uf && o == Link(d.t) && Stored(cells[..], d.t)
      ensures Changed(old(cells[..]), cells[..], Ids(p))
    {
      hide Unshared, Stored, Ids;
      Opened(cells[..], p);
      var s := cells[q].l;
      var pred := cells[q].red;
      var f := cells[s].l;
      if f != NULL && cells[f].red {
        FixRightFar(q, s, f, p);
        return false, s;
      }
      var m := cells[s].r;
      if m != NULL && cells[m].red {
        FixRightNear(q, s, m, p);
        return false, m;
      }
      FixRightRecolour(q, s, p);
      return !pred, q;
    }

    /** redblack.h:237-258: the left child of p came back as u and is linked in. */
    method FixLeft(q: int, uf: bool, ut: int, ghost p: Tree, ghost u: Del) returns (f: bool, o: int)
      requires p.Node? && q == p.id < cells.Length && p.l == u.t && uf == u.uf && ut == Link(u.t) && LeftFixable(p, u)
      requires cells[q].(l := ut) == CellOf(p) && Stored(cells[..], p.l) && Stored(cells[..], p.r) && Unshared(p)
      modifies cells
      ensures var d := RedBlackTree.FixLeft(p, u); f == d.uf && o == Link(d.t) && Stored(cells[..], d.t)
      ensures Changed(old(cells[..]), cells[..], Ids(p))
    {
      hide Unshared, Stored, Ids, RedBlackTree.FixLeftBlack;
      UnsharedKids(p);
      var s := cells[q].r;
      if p.r.Node? { StoredRoot(cells[..], p.r); UnsharedKids(p.r); }
      if !uf || s == NULL || !cells[s].red {
        cells[q] := cells[q].(l := ut);
        Relinked(old(cells[..]), cells[..], p);
        if !uf { return false, q; }
        if s == NULL { return true, q; }
        f, o := FixLeftBlack(q, p);
        return f, o;
      }
      f, o := FixLeftRed(q, s, ut, p, u);
    }

    /** The red-sibling case: the sibling is rotated away and the deficit repaired under the now red p. */
    method FixLeftRed(q: int, s: int, ut: int, ghost p: Tree, ghost u: Del) returns (f: bool, o: int)
      requires p.Node? && q == p.id < cells.Length && p.l == u.t && u.uf && ut == Link(u.t) && LeftFixable(p, u)
      requires IsRed(p.r) && s == p.r.id
      requires cells[q].(l := ut) == CellOf(p) && Stored(cells[..], p.l) && Stored(cells[..], p.r) && Unshared(p)
      modifies cells
      ensures var d := RedBlackTree.FixLeft(p, u); f == d.uf && o == Link(d.t) && Stored(cells[..], d.t)
      ensures Changed(old(cells[..]), cells[..], Ids(p))
    {
      hide Unshared, Stored, Ids, RedBlackTree.FixLeftBlack;
      UnsharedKids(p);
      UnsharedKids(p.r);
      StoredRoot(cells[..], p.r);
      ghost var m0, p' := cells[..], p.(l := u.t, r := p.r.l, red := true);
      UnsharedNode(p');
      ghost var inner := RedBlackTree.FixLeftBlack(p').t;
      FixLeftBlackIds(p');
      SameIds(p', inner);
      cells[q] := cells[q].(l := ut, r := cells[s].l, red := true);
      Relinked(m0, cells[..], p');
      f, o := FixLeftBlack(q, p');
      ghost var m2 := cells[..];
      StoredFrame(m0, m2, p.r.r, Ids(p'));
      cells[s] := cells[s].(red := false, l := o);
      Relinked(m2, cells[..], p.r.(red := false, l := inner));
      f, o := false, s;
    }

    /** redblack.h:290-311: the right child of p came back as u and is linked in. */
    method FixRight(q: int, uf: bool, ut: int, ghost p: Tree, ghost u: Del) returns (f: bool, o: int)
      requires p.Node? && q == p.id < cells.Length && p.r == u.t && uf == u.uf && ut == Link(u.t) && RightFixable(p, u)
      requires cells[q].(r := ut) == CellOf(p) && Stored(cells[..], p.r) && Stored(cells[..], p.l) && Unshared(p)
      modifies cells
      ensures var d := RedBlackTree.FixRight(p, u); f == d.uf && o == Link(d.t) && Stored(cells[..], d.t)
      ensures Changed(old(cells[..]), cells[..], Ids(p))
    {
      hide Unshared, Stored, Ids, RedBlackTree.FixRightBlack;
      UnsharedKids(p);
      var s := cells[q].l;
      if p.l.Node? { StoredRoot(cells[..], p.l); UnsharedKids(p.l); }
      if !uf || s == NULL || !cells[s].red {
        cells[q] := cells[q].(r := ut);
        Relinked(old(cells[..]), cells[..], p);
        if !uf { return false, q; }
        if s == NULL { return true, q; }
        f, o := FixRightBlack(q, p);
        return f, o;
      }
      f, o := FixRightRed(q, s, ut, p, u);
    }

    /** The red-sibling case: the sibling is rotated away and the deficit repaired under the now red p. */
    method FixRightRed(q: int, s: int, ut: int, ghost p: Tree, ghost u: Del) returns (f: bool, o: int)
      requires p.Node? && q == p.id < cells.Length && p.r == u.t && u.uf && ut == Link(u.t) && RightFixable(p, u)
      requires IsRed(p.l) && s == p.l.id
      requires cells[q].(r := ut) == CellOf(p) && Stored(cells[..], p.r) && Stored(cells[..], p.l) && Unshared(p)
      modifies cells
      ensures var d := RedBlackTree.FixRight(p, u); f == d.uf && o == Link(d.t) && Stored(cells[..], d.t)
      ensures Changed(old(cells[..]), cells[..], Ids(p))
    {
      hide Unshared, Stored, Ids, RedBlackTree.FixRightBlack;
      UnsharedKids(p);
      UnsharedKids(p.l);
      StoredRoot(cells[..], p.l);
      ghost var m0, p' := cells[..], p.(r := u.t, l := p.l.r, red := true);
      UnsharedNode(p');
      ghost var inner := RedBlackTree.FixRightBlack(p').t;
      FixRightBlackIds(p');
      SameIds(p', inner);
      cells[q] := cells[q].(r := ut, l := cells[s].r, red := true);
      Relinked(m0, cells[..], p');
      f, o := FixRightBlack(q, p');
      ghost var m2 := cells[..];
      StoredFrame(m0, m2, p.l.l, Ids(p'));
      cells[s] := cells[s].(red := false, r := o);
      Relinked(m2, cells[..], p.l.(red := false, r := inner));
      f, o := false, s;
    }

    // ---- insertion ----

    /** rb_balance on a tree in the pool. */
    method BalanceIn(t: int, ghost q: Tree) returns (o: int)
      requires q.Node? && t == Link(q) && Room() && Holds(q)
      modifies cells
      ensures var b := RedBlackTree.Balance(q); o == Link(b) && Holds(b) && Ids(b) == Ids(q)
      ensures Room() && Changed(old(cells[..]), cells[..], Ids(q))
    {
      hide Unshared, Stored, Ids, RedBlackTree.Balance, Chain, Distinct;
      BalanceIds(q);
      SameIds(q, RedBlackTree.Balance(q));
      ghost var m := cells[..];
      o := Balance(t, q);
      ChainFrame(m, cells[..], freelist, free, Ids(q));
    }

    /** t->l = child, where child is the root of q.l. */
    method LinkLeft(t: int, child: int, ghost q: Tree)
      requires q.Node? && t == q.id < used && t !in free && child == Link(q.l) && Unshared(q) && Room()
      requires Holds(q.l) && Holds(q.r) && cells[t].(l := child) == CellOf(q)
      modifies cells
      ensures Holds(q) && Room() && Changed(old(cells[..]), cells[..], {q.id})
    {
      hide Unshared, Stored, Ids, Chain, Distinct;
      UnsharedKids(q);
      ghost var m := cells[..];
      cells[t] := cells[t].(l := child);
      Relinked(m, cells[..], q);
      ChainFrame(m, cells[..], freelist, free, {q.id});
    }

    method LinkRight(t: int, child: int, ghost q: Tree)
      requires q.Node? && t == q.id < used && t !in free && child == Link(q.r) && Unshared(q) && Room()
      requires Holds(q.l) && Holds(q.r) && cells[t].(r := child) == CellOf(q)
      modifies cells
      ensures Holds(q) && Room() && Changed(old(cells[..]), cells[..], {q.id})
    {
      hide Unshared, Stored, Ids, Chain, Distinct;
      UnsharedKids(q);
      ghost var m := cells[..];
      cells[t] := cells[t].(r := child);
      Relinked(m, cells[..], q);
      ChainFrame(m, cells[..], freelist, free, {q.id});
    }

    /** redblack.h:178-179 and 182-183: link the grown child in and rebalance. */
    method GraftLeft(t: int, child: int, ghost q: Tree) returns (o: int)
      requires q.Node? && t == q.id < used && t !in free && child == Link(q.l) && Unshared(q) && Room()
      requires Holds(q.l) && Holds(q.r) && cells[t].(l := child) == CellOf(q)
      modifies cells
      ensures var b := RedBlackTree.Balance(q); o == Link(b) && Holds(b)
      ensures Room() && Changed(old(cells[..]), cells[..], Ids(q))
    {
      hide Unshared, Stored, Ids, RedBlackTree.Balance, Chain, Distinct;
      IdsOf(q);
      LinkLeft(t, child, q);
      o := BalanceIn(t, q);
    }

    method GraftRight(t: int, child: int, ghost q: Tree) returns (o: int)
      requires q.Node? && t == q.id < used && t !in free && child == Link(q.r) && Unshared(q) && Room()
      requires Holds(q.l) && Holds(q.r) && cells[t].(r := child) == CellOf(q)
      modifies cells
      ensures var b := RedBlackTree.Balance(q); o == Link(b) && Holds(b)
      ensures Room() && Changed(old(cells[..]), cells[..], Ids(q))
    {
      hide Unshared, Stored, Ids, RedBlackTree.Balance, Chain, Distinct;
      IdsOf(q);
      LinkRight(t, child, q);
      o := BalanceIn(t, q);
    }

    /** redblack.h:170-175: a red leaf in a new cell. */
    method NewNode(k: nat, v: nat) returns (o: int)
      requires Room() && CanAlloc()
      modifies this`used, this`freelist, this`free, cells
      ensures var r := Node(old(NextSlot()), true, k, v, Leaf, Leaf);
              o == Link(r) && Room() && Holds(r) && Ids(r) == {old(NextSlot())}
      ensures Changed(old(cells[..]), cells[..], {old(NextSlot())})
      ensures Allocated(old(free), old(used), free, used)
    {
      ghost var slot := NextSlot();
      o := Alloc();
      ghost var m := cells[..];
      cells[o] := cells[o].(red := true, k := k, v := v);
      ChainFrame(m, cells[..], freelist, free, {slot});
      assert Ids(Node(slot, true, k, v, Leaf, Leaf)) == {slot};
    }

    /** redblack.h:185. */
    method SetValue(t: int, v: nat, ghost tr: Tree)
      requires Room() && Holds(tr) && tr.Node? && t == tr.id
      modifies cells
      ensures Room() && Holds(tr.(v := v)) && Changed(old(cells[..]), cells[..], Ids(tr))
    {
      hide Unshared, Stored, Ids, Chain, Distinct;
      UnsharedKids(tr);
      StoredRoot(cells[..], tr);
      UnsharedNode(tr.(v := v));
      ghost var m := cells[..];
      cells[t] := cells[t].(v := v);
      Relinked(m, cells[..], tr.(v := v));
      ChainFrame(m, cells[..], freelist, free, {tr.id});
    }

    /** redblack.h:168-187. */
    method InsN(t: int, k: nat, v: nat, ghost tr: Tree) returns (o: int, isNew: bool)
      requires Room() && Holds(tr) && t == Link(tr) && (Finds(tr, k) || CanAlloc())
      modifies this`used, this`freelist, this`free, cells
      ensures var r := Ins(tr, k, v, old(NextSlot())); o == Link(r) && Room() && Holds(r)
      ensures isNew <==> !Finds(tr, k)
      ensures Changed(old(cells[..]), cells[..], InsTouches(tr, k, old(NextSlot())))
      ensures if isNew then Allocated(old(free), old(used), free, used) else free == old(free) && used == old(used)
      decreases tr, 1
    {
      hide Unshared, Stored, Ids, Chain, Distinct, Ins, Allocated;
      InsUnfolds(tr, k, v, NextSlot());
      if t == NULL {
        o := NewNode(k, v);
        return o, true;
      }
      StoredRoot(cells[..], tr);
      if k < cells[t].k {
        o, isNew := InsLeft(t, k, v, tr);
      } else if k > cells[t].k {
        o, isNew := InsRight(t, k, v, tr);
      } else {
        SetValue(t, v, tr);
        o, isNew := t, false;
      }
    }

    /** redblack.h:176-179. */
    method InsLeft(t: int, k: nat, v: nat, ghost tr: Tree) returns (o: int, isNew: bool)
      requires Room() && Holds(tr) && tr.Node? && t == Link(tr) && (Finds(tr, k) || CanAlloc()) && k < tr.k
      modifies this`used, this`freelist, this`free, cells
      ensures var r := Ins(tr, k, v, old(NextSlot())); o == Link(r) && Room() && Holds(r)
      ensures isNew <==> !Finds(tr, k)
      ensures Changed(old(cells[..]), cells[..], InsTouches(tr, k, old(NextSlot())))
      ensures if isNew then Allocated(old(free), old(used), free, used) else free == old(free) && used == old(used)
      decreases tr, 0
    {
      hide Unshared, Stored, Ids, Chain, Distinct, RedBlackTree.Balance;
      IdsOf(tr);
      UnsharedKids(tr);
      StoredRoot(cells[..], tr);
      ghost var slot, m0 := NextSlot(), cells[..];
      o, isNew := InsN(cells[t].l, k, v, tr.l);
      ghost var q := tr.(l := Ins(tr.l, k, v, slot));
      InsIds(tr.l, k, v, slot);
      UnsharedNode(q);
      StoredFrame(m0, cells[..], tr.r, InsTouches(tr.l, k, slot));
      o := GraftLeft(t, o, q);
    }

    /** redblack.h:180-183. */
    method InsRight(t: int, k: nat, v: nat, ghost tr: Tree) returns (o: int, isNew: bool)
      requires Room() && Holds(tr) && tr.Node? && t == Link(tr) && (Finds(tr, k) || CanAlloc()) && k > tr.k
      modifies this`used, this`freelist, this`free, cells
      ensures var r := Ins(tr, k, v, old(NextSlot())); o == Link(r) && Room() && Holds(r)
      ensures isNew <==> !Finds(tr, k)
      ensures Changed(old(cells[..]), cells[..], InsTouches(tr, k, old(NextSlot())))
      ensures if isNew then Allocated(old(free), old(used), free, used) else free == old(free) && used == old(used)
      decreases tr, 0
    {
      hide Unshared, Stored, Ids, Chain, Distinct, RedBlackTree.Balance;
      IdsOf(tr);
      UnsharedKids(tr);
      StoredRoot(cells[..], tr);
      ghost var slot, m0 := NextSlot(), cells[..];
      o, isNew := InsN(cells[t].r, k, v, tr.r);
      ghost var q := tr.(r := Ins(tr.r, k, v, slot));
      InsIds(tr.r, k, v, slot);
      UnsharedNode(q);
      StoredFrame(m0, cells[..], tr.l, InsTouches(tr.r, k, slot));
      o := GraftRight(t, o, q);
    }

    // ---- deletion ----

    /** rb_fix_left on a tree in the pool. */
    method FixLeftIn(q: int, uf: bool, ut: int, ghost p: Tree, ghost u: Del) returns (f: bool, o: int)
      requires p.Node? && q == p.id < used && q !in free && p.l == u.t
      requires uf == u.uf && ut == Link(u.t) && LeftFixable(p, u)
      requires Room() && Holds(p.l) && Holds(p.r) && Unshared(p) && cells[q].(l := ut) == CellOf(p)
      modifies cells
      ensures var d := RedBlackTree.FixLeft(p, u); f == d.uf && o == Link(d.t) && Holds(d.t) && Ids(d.t) == Ids(p)
      ensures Room() && Changed(old(cells[..]), cells[..], Ids(p))
    {
      hide Unshared, Stored, Ids, RedBlackTree.FixLeft, Chain, Distinct;
      UnsharedKids(p);
      FixLeftIds(p, u);
      SameIds(p, RedBlackTree.FixLeft(p, u).t);
      ghost var m := cells[..];
      f, o := FixLeft(q, uf, ut, p, u);
      ChainFrame(m, cells[..], freelist, free, Ids(p));
    }

    /** rb_fix_right on a tree in the pool. */
    method FixRightIn(q: int, uf: bool, ut: int, ghost p: Tree, ghost u: Del) returns (f: bool, o: int)
      requires p.Node? && q == p.id < used && q !in free && p.r == u.t
      requires uf == u.uf && ut == Link(u.t) && RightFixable(p, u)
      requires Room() && Holds(p.r) && Holds(p.l) && Unshared(p) && cells[q].(r := ut) == CellOf(p)
      modifies cells
      ensures var d := RedBlackTree.FixRight(p, u); f == d.uf && o == Link(d.t) && Holds(d.t) && Ids(d.t) == Ids(p)
      ensures Room() && Changed(old(cells[..]), cells[..], Ids(p))
    {
      hide Unshared, Stored, Ids, RedBlackTree.FixRight, Chain, Distinct;
      UnsharedKids(p);
      FixRightIds(p, u);
      SameIds(p, RedBlackTree.FixRight(p, u).t);
      ghost var m := cells[..];
      f, o := FixRight(q, uf, ut, p, u);
      ChainFrame(m, cells[..], freelist, free, Ids(p));
    }

    /** redblack.h:316-323 and 332-337: node n goes and its only child c, blackened, takes its place. */
    method SpliceOut(n: int, c: int, ghost tr: Tree, ghost ct: Tree) returns (f: bool, o: int)
      requires Room() && Holds(tr) && tr.Node? && n == tr.id && c == Link(ct)
      requires (ct == tr.r && tr.l.Leaf?) || (ct == tr.l && tr.r.Leaf?)
      modifies this`freelist, this`free, cells
      ensures var d := Splice(tr.red, ct); f == d.uf && o == Link(d.t) && Holds(d.t) && Ids(d.t) == Ids(ct)
      ensures Room() && free == [n] + old(free) && Changed(old(cells[..]), cells[..], Ids(tr))
    {
      hide Unshared, Stored, Ids, Chain, Distinct;
      IdsOf(tr);
      IdsOf(ct);
      UnsharedKids(tr);
      StoredRoot(cells[..], tr);
      ghost var m := cells[..];
      var red := cells[n].red;
      Release(n);
      StoredFrame(m, cells[..], ct, {n as nat});
      LeafFacts(cells[..]);
      if c == NULL { return !red, NULL; }
      UnsharedKids(ct);
      StoredRoot(cells[..], ct);
      ghost var m1 := cells[..];
      cells[c] := cells[c].(red := false);
      UnsharedNode(ct.(red := false));
      Relinked(m1, cells[..], ct.(red := false));
      ChainFrame(m1, cells[..], freelist, free, {ct.id});
      return false, c;
    }

    /** redblack.h:314-327. */
    method SplitMin(t: int, ghost tr: Tree) returns (mk: nat, mv: nat, f: bool, o: int)
      requires Room() && Holds(tr) && tr.Node? && Shaped(tr) && t == tr.id
      modifies this`freelist, this`free, cells
      ensures var m := RedBlackTree.SplitMin(tr);
              && mk == m.k && mv == m.v && f == m.d.uf && o == Link(m.d.t) && Holds(m.d.t)
              && free == [m.id] + old(free)
      ensures Room() && Changed(old(cells[..]), cells[..], Ids(tr))
      decreases tr
    {
      hide Unshared, Stored, Ids, Chain, Distinct, Shaped, RedBlackTree.FixLeft;
      IdsOf(tr);
      UnsharedKids(tr);
      StoredRoot(cells[..], tr);
      Parts(tr);
      if cells[t].l == NULL {
        mk, mv := cells[t].k, cells[t].v;
        f, o := SpliceOut(t, cells[t].r, tr, tr.r);
        return;
      }
      ghost var m0 := cells[..];
      mk, mv, f, o := SplitMin(cells[t].l, tr.l);
      ghost var m := RedBlackTree.SplitMin(tr.l);
      SplitMinIds(tr.l);
      FixLeftShape(tr, m.d);
      StoredFrame(m0, cells[..], tr.r, Ids(tr.l));
      UnsharedNode(tr.(l := m.d.t));
      FixLeftRelinks(tr, m.d);
      f, o := FixLeftIn(t, f, o, tr.(l := m.d.t), m.d);
    }

    /** redblack.h:330-345. */
    method DelHere(t: int, ghost tr: Tree) returns (f: bool, o: int)
      requires Room() && Holds(tr) && tr.Node? && Shaped(tr) && t == tr.id
      modifies this`freelist, this`free, cells
      ensures var d := RedBlackTree.DelHere(tr); f == d.uf && o == Link(d.t) && Holds(d.t)
      ensures free == [GoneHere(tr)] + old(free)
      ensures Room() && Changed(old(cells[..]), cells[..], Ids(tr))
    {
      hide Unshared, Stored, Ids, Chain, Distinct, Shaped, RedBlackTree.FixRight, RedBlackTree.SplitMin;
      IdsOf(tr);
      UnsharedKids(tr);
      StoredRoot(cells[..], tr);
      Parts(tr);
      if cells[t].r == NULL {
        f, o := SpliceOut(t, cells[t].l, tr, tr.l);
        return;
      }
      ghost var m0 := cells[..];
      var mk, mv;
      mk, mv, f, o := SplitMin(cells[t].r, tr.r);
      ghost var m := RedBlackTree.SplitMin(tr.r);
      ghost var p := tr.(k := m.k, v := m.v);
      SplitMinIds(tr.r);
      WithKey(tr, m.k, m.v);
      FixRightShape(p, m.d);
      StoredFrame(m0, cells[..], tr.l, Ids(tr.r));
      UnsharedNode(p.(r := m.d.t));
      ghost var m1 := cells[..];
      cells[t] := cells[t].(k := mk, v := mv);
      ChainFrame(m1, cells[..], freelist, free, {tr.id});
      StoredFrame(m1, cells[..], tr.l, {tr.id});
      StoredFrame(m1, cells[..], m.d.t, {tr.id});
      FixRightRelinks(p, m.d);
      f, o := FixRightIn(t, f, o, p.(r := m.d.t), m.d);
    }

    /** redblack.h:363-370. */
    method DelV(t: int, k: nat, ghost tr: Tree) returns (f: bool, o: int, old': nat, found: bool)
      requires Room() && Holds(tr) && Shaped(tr) && t == Link(tr)
      modifies this`freelist, this`free, cells
      ensures var d := RedBlackTree.DelV(tr, k); f == d.uf && o == Link(d.t) && Holds(d.t)
      ensures free == Gone(tr, k) + old(free)
      ensures found == Search(tr, k).Some? && (found ==> old' == Search(tr, k).value)
      ensures Room() && Changed(old(cells[..]), cells[..], Ids(tr))
      decreases tr
    {
      hide Unshared, Stored, Ids, Chain, Distinct, Shaped, RedBlackTree.FixLeft, RedBlackTree.FixRight,
           RedBlackTree.DelHere;
      if t == NULL { return false, NULL, 0, false; }
      IdsOf(tr);
      UnsharedKids(tr);
      StoredRoot(cells[..], tr);
      Parts(tr);
      ghost var m0 := cells[..];
      if k < cells[t].k {
        f, o, old', found := DelV(cells[t].l, k, tr.l);
        ghost var u := RedBlackTree.DelV(tr.l, k);
        DelIds(tr.l, k);
        FixLeftShape(tr, u);
        StoredFrame(m0, cells[..], tr.r, Ids(tr.l));
        UnsharedNode(tr.(l := u.t));
        FixLeftRelinks(tr, u);
        f, o := FixLeftIn(t, f, o, tr.(l := u.t), u);
      } else if k > cells[t].k {
        f, o, old', found := DelV(cells[t].r, k, tr.r);
        ghost var u := RedBlackTree.DelV(tr.r, k);
        DelIds(tr.r, k);
        FixRightShape(tr, u);
        StoredFrame(m0, cells[..], tr.l, Ids(tr.r));
        UnsharedNode(tr.(r := u.t));
        FixRightRelinks(tr, u);
        f, o := FixRightIn(t, f, o, tr.(r := u.t), u);
      } else {
        old', found := cells[t].v, true;
        f, o := DelHere(t, tr);
      }
    }
  }

  lemma WithKey(t: Tree, k: nat, v: nat)
    requires t.Node? && Shaped(t)
    ensures Shaped(t.(k := k, v := v))
  {}

  /** The cell a deletion releases. */
  ghost function GoneHere(t: Tree): nat
    requires t.Node? && Shaped(t)
  {
    if t.r.Leaf? then t.id else RedBlackTree.SplitMin(t.r).id
  }

  ghost function Gone(t: Tree, k: nat): seq<nat>
    requires Shaped(t)
  {
    if t.Leaf? then []
    else if k < t.k then Gone(t.l, k)
    else if k > t.k then Gone(t.r, k)
    else [GoneHere(t)]
  }

  ghost function SetOf(s: seq<nat>): set<nat> {
    set i | i in s
  }

  /** The tree after an insertion, blackened. */
  lemma InsertFacts(t: Tree, k: nat, v: nat, slot: nat)
    requires Shaped(t) && Sorted(Inorder(t))
    ensures var o := Insert(t, k, v, slot);
            && Shaped(o) && !IsRed(o) && Sorted(Inorder(o)) && Inorder(o) == Inorder(Ins(t, k, v, slot))
            && Inorder(o) == RedBlackTree.Put(Inorder(t), k, v)
            && AsMap(Inorder(o)) == AsMap(Inorder(t))[k := v]
    ensures Finds(t, k) <==> k in AsMap(Inorder(t))
  {
    hide Shaped, AsMap, Sorted, Ins;
    var s := Inorder(t);
    var hi := Bounded(s);
    SearchIsGet(t, k, hi);
    InsertShape(t, k, v, slot);
    InsInorder(t, k, v, slot, hi);
    RecolourInorder(Ins(t, k, v, slot), false);
    PutIsUpdate(s, k, v);
    SortedPut(s, k, v, hi);
  }

  lemma SortedPut(s: seq<Entry>, k: nat, v: nat, hi: int)
    requires Sorted(s) && Within(s, -1, hi)
    ensures Sorted(RedBlackTree.Put(s, k, v))
  {
    PutKeeps(s, k, v, -1, if hi > k then hi else k + 1);
  }

  lemma RemoveFacts(t: Tree, k: nat)
    requires Shaped(t) && Sorted(Inorder(t))
    ensures var o := RedBlackTree.Remove(t, k);
            && Shaped(o) && !IsRed(o) && Sorted(Inorder(o))
            && Inorder(o) == Take(Inorder(t), k)
            && AsMap(Inorder(o)) == AsMap(Inorder(t)) - {k}
    ensures Search(t, k) == Get(AsMap(Inorder(t)), k)
  {
    hide Shaped, AsMap, Sorted, RedBlackTree.DelV;
    var s := Inorder(t);
    var hi := Bounded(s);
    SearchIsGet(t, k, hi);
    RemoveShape(t, k);
    DelInorder(t, k, hi);
    var o := RedBlackTree.DelV(t, k).t;
    if o.Node? { RecolourInorder(o, false); }
    TakeIsRemoval(s, k, hi);
    TakeKeeps(s, k, -1, hi);
  }

  // ---- allocation ----

  /** The free list and the used count after one allocation. */
  ghost predicate Allocated(free: seq<nat>, used: nat, free': seq<nat>, used': nat) {
    if free != [] then free' == free[1..] && used' == used else free' == [] && used' == used + 1
  }

  ghost function InsTouches(t: Tree, k: nat, slot: nat): set<nat> {
    if Finds(t, k) then Ids(t) else Ids(t) + {slot}
  }

  ghost predicate Chain(m: seq<Cell>, p: int, free: seq<nat>)
    decreases |free|
  {
    if free == [] then p == NULL
    else p == free[0] < |m| && Chain(m, m[p].l, free[1..])
  }

  ghost predicate Apart(ids: set<nat>, used: nat, free: seq<nat>) {
    forall i :: i in ids ==> i < used && i !in free
  }

  /** Insertion where the search for the key ends. */
  lemma InsUnfolds(t: Tree, k: nat, v: nat, slot: nat)
    ensures t.Leaf? ==> Ins(t, k, v, slot) == Node(slot, true, k, v, Leaf, Leaf) && !Finds(t, k) && Ids(t) == {}
    ensures t.Node? && t.k == k ==> Ins(t, k, v, slot) == t.(v := v) && Finds(t, k)
  {}

  lemma {:induction false} InsIds(t: Tree, k: nat, v: nat, slot: nat)
    requires Unshared(t) && slot !in Ids(t)
    ensures Unshared(Ins(t, k, v, slot)) && Ids(Ins(t, k, v, slot)) == InsTouches(t, k, slot)
  {
    hide Unshared, RedBlackTree.Balance;
    if t.Leaf? {
      LeafFacts([]);
      UnsharedNode(Node(slot, true, k, v, Leaf, Leaf));
    } else {
      UnsharedKids(t);
      if k < t.k {
        var q := t.(l := Ins(t.l, k, v, slot));
        InsIds(t.l, k, v, slot);
        UnsharedNode(q);
        BalanceIds(q);
        SameIds(q, RedBlackTree.Balance(q));
      } else if k > t.k {
        var q := t.(r := Ins(t.r, k, v, slot));
        InsIds(t.r, k, v, slot);
        UnsharedNode(q);
        BalanceIds(q);
        SameIds(q, RedBlackTree.Balance(q));
      } else {
        UnsharedNode(t.(v := v));
      }
    }
  }

  lemma FixLeftRelinks(p: Tree, u: Del)
    requires LeftFixable(p, u)
    ensures RedBlackTree.FixLeft(p.(l := u.t), u) == RedBlackTree.FixLeft(p, u)
  {}

  lemma FixRightRelinks(p: Tree, u: Del)
    requires RightFixable(p, u)
    ensures RedBlackTree.FixRight(p.(r := u.t), u) == RedBlackTree.FixRight(p, u)
  {}

  /** The cells of a repaired tree: p's own, those of u and those of the other child. */
  lemma FixLeftSet(p: Tree, u: Del)
    requires p.Node? && Unshared(p) && LeftFixable(p, u) && Unshared(u.t) && Ids(u.t) <= Ids(p.l)
    ensures var o := RedBlackTree.FixLeft(p, u).t; Unshared(o) && Ids(o) == {p.id} + Ids(u.t) + Ids(p.r)
  {
    hide RedBlackTree.FixLeft, Unshared, Ids;
    UnsharedKids(p);
    UnsharedNode(p.(l := u.t));
    FixLeftIds(p, u);
    SameIds(p.(l := u.t), RedBlackTree.FixLeft(p, u).t);
  }

  lemma FixRightSet(p: Tree, u: Del)
    requires p.Node? && Unshared(p) && RightFixable(p, u) && Unshared(u.t) && Ids(u.t) <= Ids(p.r)
    ensures var o := RedBlackTree.FixRight(p, u).t; Unshared(o) && Ids(o) == {p.id} + Ids(p.l) + Ids(u.t)
  {
    hide RedBlackTree.FixRight, Unshared, Ids;
    UnsharedKids(p);
    UnsharedNode(p.(r := u.t));
    FixRightIds(p, u);
    SameIds(p.(r := u.t), RedBlackTree.FixRight(p, u).t);
  }

  /** A deletion takes out exactly the cell it releases. */
  lemma {:induction false} DelIds(t: Tree, k: nat)
    requires Shaped(t) && Unshared(t)
    ensures var d := RedBlackTree.DelV(t, k);
            Unshared(d.t) && SetOf(Gone(t, k)) <= Ids(t) && Ids(d.t) == Ids(t) - SetOf(Gone(t, k))
  {
    hide RedBlackTree.FixLeft, RedBlackTree.FixRight, RedBlackTree.DelHere, Shaped, Unshared;
    LeafFacts([]);
    if t.Node? {
      UnsharedKids(t);
      Parts(t);
      if k < t.k {
        DelIds(t.l, k);
        FixLeftShape(t, RedBlackTree.DelV(t.l, k));
        FixLeftSet(t, RedBlackTree.DelV(t.l, k));
      } else if k > t.k {
        DelIds(t.r, k);
        FixRightShape(t, RedBlackTree.DelV(t.r, k));
        FixRightSet(t, RedBlackTree.DelV(t.r, k));
      } else {
        DelHereIds(t);
      }
    }
  }

  lemma SpliceIds(red: bool, c: Tree)
    requires Unshared(c)
    ensures var d := Splice(red, c); Unshared(d.t) && Ids(d.t) == Ids(c)
  {
    if c.Node? { UnsharedKids(c); UnsharedNode(c.(red := false)); }
  }

  lemma DelHereIds(t: Tree)
    requires t.Node? && Shaped(t) && Unshared(t)
    ensures var d := RedBlackTree.DelHere(t);
            Unshared(d.t) && GoneHere(t) in Ids(t) && Ids(d.t) == Ids(t) - {GoneHere(t)}
  {
    hide RedBlackTree.FixRight, RedBlackTree.SplitMin, Shaped, Unshared, Splice;
    UnsharedKids(t);
    Parts(t);
    if t.r.Leaf? {
      SpliceIds(t.red, t.l);
    } else {
      SplitMinIds(t.r);
      var m := RedBlackTree.SplitMin(t.r);
      var p := t.(k := m.k, v := m.v);
      WithKey(t, m.k, m.v);
      UnsharedNode(p);
      FixRightShape(p, m.d);
      FixRightSet(p, m.d);
    }
  }

  lemma FixLeftIds(p: Tree, u: Del)
    requires LeftFixable(p, u)
    ensures IdSeq(RedBlackTree.FixLeft(p, u).t) == IdSeq(p.(l := u.t))
  {
    if u.uf && p.r.Node? {
      if p.r.red {
        FixLeftBlackIds(p.(l := u.t, r := p.r.l, red := true));
        RotateIds(p.(l := u.t));
      } else {
        FixLeftBlackIds(p.(l := u.t));
      }
    }
  }

  lemma FixRightIds(p: Tree, u: Del)
    requires RightFixable(p, u)
    ensures IdSeq(RedBlackTree.FixRight(p, u).t) == IdSeq(p.(r := u.t))
  {
    if u.uf && p.l.Node? {
      if p.l.red {
        FixRightBlackIds(p.(r := u.t, l := p.l.r, red := true));
        RotateIds(p.(r := u.t));
      } else {
        FixRightBlackIds(p.(r := u.t));
      }
    }
  }

  /** SplitMin takes exactly one cell out. */
  lemma {:induction false} SplitMinIds(t: Tree)
    requires t.Node? && Shaped(t) && Unshared(t)
    ensures var m := RedBlackTree.SplitMin(t);
            Unshared(m.d.t) && m.id in Ids(t) && Ids(m.d.t) == Ids(t) - {m.id}
  {
    hide RedBlackTree.FixLeft, Shaped, Unshared, Splice;
    UnsharedKids(t);
    Parts(t);
    if t.l.Leaf? {
      SpliceIds(t.red, t.r);
    } else {
      SplitMinIds(t.l);
      FixLeftShape(t, RedBlackTree.SplitMin(t.l).d);
      FixLeftSet(t, RedBlackTree.SplitMin(t.l).d);
    }
  }

  lemma ChainTail(m: seq<Cell>, p: int, free: seq<nat>)
    requires Chain(m, p, free) && Distinct(free) && free != []
    ensures free[0] !in free[1..] && Distinct(free[1..]) && Chain(m, m[p].l, free[1..])
    ensures forall i :: i in free[1..] ==> i in free
  {}

  lemma {:induction false} ChainFrame(m: seq<Cell>, m': seq<Cell>, p: int, free: seq<nat>, w: set<nat>)
    requires Chain(m, p, free) && Changed(m, m', w) && forall i :: i in free ==> i !in w
    ensures Chain(m', p, free)
    decreases |free|
  {
    if free != [] { ChainFrame(m, m', m[p].l, free[1..], w); }
  }

  lemma TopIds(t: Tree)
    requires t.Node?
    ensures t.id in Ids(t)
    ensures t.l.Node? ==> t.l.id in Ids(t)
    ensures t.r.Node? ==> t.r.id in Ids(t)
    ensures t.l.Node? && t.l.l.Node? ==> t.l.l.id in Ids(t)
    ensures t.l.Node? && t.l.r.Node? ==> t.l.r.id in Ids(t)
    ensures t.r.Node? && t.r.l.Node? ==> t.r.l.id in Ids(t)
    ensures t.r.Node? && t.r.r.Node? ==> t.r.r.id in Ids(t)
  {
    if t.l.Node? { assert Ids(t.l) <= Ids(t); }
    if t.r.Node? { assert Ids(t.r) <= Ids(t); }
  }

  lemma LeafFacts(m: seq<Cell>)
    ensures Stored(m, Leaf) && Unshared(Leaf) && Ids(Leaf) == {}
  {}

  lemma IdsOf(t: Tree)
    ensures t.Leaf? ==> Ids(t) == {}
    ensures t.Node? ==> t.id in Ids(t) && Ids(t.l) <= Ids(t) && Ids(t.r) <= Ids(t)
  {}

  lemma UnsharedKids(t: Tree)
    requires t.Node? && Unshared(t)
    ensures Unshared(t.l) && Unshared(t.r)
    ensures t.id !in Ids(t.l) && t.id !in Ids(t.r) && Ids(t.l) !! Ids(t.r)
    ensures Ids(t) == {t.id} + Ids(t.l) + Ids(t.r)
  {}

  lemma UnsharedNode(t: Tree)
    requires t.Node? && Unshared(t.l) && Unshared(t.r)
    requires t.id !in Ids(t.l) && t.id !in Ids(t.r) && Ids(t.l) !! Ids(t.r)
    ensures Unshared(t) && Ids(t) == {t.id} + Ids(t.l) + Ids(t.r)
  {}

  lemma StoredRoot(m: seq<Cell>, t: Tree)
    requires t.Node? && Stored(m, t)
    ensures t.id < |m| && m[t.id] == CellOf(t) && Stored(m, t.l) && Stored(m, t.r)
  {}

  /** One cell rewritten above two stored subtrees that do not contain it. */
  lemma Relinked(m: seq<Cell>, m': seq<Cell>, o: Tree)
    requires o.Node? && o.id !in Ids(o.l) && o.id !in Ids(o.r) && Stored(m, o.l) && Stored(m, o.r)
    requires o.id < |m| && Changed(m, m', {o.id}) && m'[o.id] == CellOf(o)
    ensures Stored(m', o)
  {
    StoredFrame(m, m', o.l, {o.id});
    StoredFrame(m, m', o.r, {o.id});
  }
}
