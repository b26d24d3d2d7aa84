/** The red-black algorithms of benchmarks/native/redblack.h on tree values: what the in-place code
    of module RedBlackPool computes, with the shape and contents it is proved to keep. A node
    carries its pool slot, so the same value also says which slots the tree occupies. */
module RedBlackTree {
  import opened Arith

  datatype Tree = Leaf | Node(id: nat, red: bool, k: nat, v: nat, l: Tree, r: Tree)

  /** rb_td and rb_uf: a subtree after a deletion, deficient by one black level when uf. */
  datatype Del = Del(uf: bool, t: Tree)

  datatype Entry = Entry(k: nat, v: nat)

  predicate IsRed(t: Tree) {
    t.Node? && t.red
  }

  // ---- shape ----

  function BlackHeight(t: Tree): nat {
    if t.Leaf? then 0 else BlackHeight(t.l) + (if t.red then 0 else 1)
  }

  /** Every path holds the same number of black nodes and no red node has a red child. */
  predicate Shaped(t: Tree) {
    t.Node? ==>
      && Shaped(t.l) && Shaped(t.r) && BlackHeight(t.l) == BlackHeight(t.r)
      && (t.red ==> !IsRed(t.l) && !IsRed(t.r))
  }

  lemma Parts(t: Tree)
    requires Shaped(t) && t.Node?
    ensures Shaped(t.l) && Shaped(t.r) && BlackHeight(t.l) == BlackHeight(t.r)
    ensures t.red ==> !IsRed(t.l) && !IsRed(t.r)
    ensures BlackHeight(t) == BlackHeight(t.l) + (if t.red then 0 else 1)
  {}

  lemma Whole(t: Tree)
    requires t.Node? && Shaped(t.l) && Shaped(t.r) && BlackHeight(t.l) == BlackHeight(t.r)
    requires t.red ==> !IsRed(t.l) && !IsRed(t.r)
    ensures Shaped(t) && BlackHeight(t) == BlackHeight(t.l) + (if t.red then 0 else 1)
  {}

  // ---- insertion ----

  /** redblack.h:87-135, in the order the code tries the four rotations. */
  function Balance(t: Tree): (o: Tree)
    requires t.Node?
    ensures o.Node?
  {
    if t.red then t
    else if IsRed(t.l) && IsRed(t.l.l) then
      var l := t.l;
      l.(red := true, l := l.l.(red := false), r := t.(l := l.r, red := false))
    else if IsRed(t.l) && IsRed(t.l.r) then
      var l, m := t.l, t.l.r;
      m.(red := true, l := l.(r := m.l, red := false), r := t.(l := m.r, red := false))
    else if IsRed(t.r) && IsRed(t.r.l) then
      var r, m := t.r, t.r.l;
      m.(red := true, l := t.(r := m.l, red := false), r := r.(l := m.r, red := false))
    else if IsRed(t.r) && IsRed(t.r.r) then
      var r := t.r;
      r.(red := true, l := t.(r := r.l, red := false), r := r.r.(red := false))
    else t
  }

  /** redblack.h:168-187; a new node takes the given slot. */
  function Ins(t: Tree, k: nat, v: nat, slot: nat): (o: Tree)
    ensures o.Node?
  {
    if t.Leaf? then Node(slot, true, k, v, Leaf, Leaf)
    else if k < t.k then Balance(t.(l := Ins(t.l, k, v, slot)))
    else if k > t.k then Balance(t.(r := Ins(t.r, k, v, slot)))
    else t.(v := v)
  }

  /** redblack.h:189-194. */
  function Insert(t: Tree, k: nat, v: nat, slot: nat): (o: Tree)
    ensures o.Node?
  {
    var o := Ins(t, k, v, slot);
    o.(red := false)
  }

  /** The search path for k ends on a node. */
  predicate Finds(t: Tree, k: nat) {
    t.Node? && if k < t.k then Finds(t.l, k) else if k > t.k then Finds(t.r, k) else true
  }

  // ---- deletion ----

  /** What a deletion returns from a shaped tree t: the black height unchanged, or lost exactly once
      by a black tree; no red-red edge; a red root only where there was one. */
  predicate DelOk(t: Tree, d: Del) {
    && Shaped(d.t)
    && (IsRed(d.t) ==> IsRed(t))
    && (d.uf ==> t.Node? && !t.red && !IsRed(d.t))
    && BlackHeight(t) == BlackHeight(d.t) + (if d.uf then 1 else 0)
  }

  /** redblack.h:207-234. */
  function FixLeftBlack(p: Tree): (d: Del)
    requires p.Node? && p.r.Node?
    ensures d.t.Node?
  {
    var s := p.r;
    if IsRed(s.r) then
      Del(false, s.(red := p.red, l := p.(r := s.l, red := false), r := s.r.(red := false)))
    else if IsRed(s.l) then
      var m := s.l;
      Del(false, m.(red := p.red, l := p.(r := m.l, red := false), r := s.(l := m.r, red := false)))
    else
      Del(!p.red, p.(r := s.(red := true), red := false))
  }

  /** A red sibling on the right has the left child that the rotation dereferences. */
  predicate LeftFixable(p: Tree, u: Del) {
    p.Node? && (u.uf && IsRed(p.r) ==> p.r.l.Node?)
  }

  /** redblack.h:237-258: the left child of p came back as u. */
  function FixLeft(p: Tree, u: Del): (d: Del)
    requires LeftFixable(p, u)
    ensures d.t.Node?
  {
    if !u.uf then Del(false, p.(l := u.t))
    else if p.r.Leaf? then Del(true, p.(l := u.t))
    else if p.r.red then
      var s := p.r;
      var inner := FixLeftBlack(p.(l := u.t, r := s.l, red := true));
      Del(false, s.(red := false, l := inner.t))
    else FixLeftBlack(p.(l := u.t))
  }

  /** redblack.h:261-288. */
  function FixRightBlack(p: Tree): (d: Del)
    requires p.Node? && p.l.Node?
    ensures d.t.Node?
  {
    var s := p.l;
    if IsRed(s.l) then
      Del(false, s.(red := p.red, r := p.(l := s.r, red := false), l := s.l.(red := false)))
    else if IsRed(s.r) then
      var m := s.r;
      Del(false, m.(red := p.red, r := p.(l := m.r, red := false), l := s.(r := m.l, red := false)))
    else
      Del(!p.red, p.(l := s.(red := true), red := false))
  }

  predicate RightFixable(p: Tree, u: Del) {
    p.Node? && (u.uf && IsRed(p.l) ==> p.l.r.Node?)
  }

  /** redblack.h:290-311. */
  function FixRight(p: Tree, u: Del): (d: Del)
    requires RightFixable(p, u)
    ensures d.t.Node?
  {
    if !u.uf then Del(false, p.(r := u.t))
    else if p.l.Leaf? then Del(true, p.(r := u.t))
    else if p.l.red then
      var s := p.l;
      var inner := FixRightBlack(p.(r := u.t, l := s.r, red := true));
      Del(false, s.(red := false, r := inner.t))
    else FixRightBlack(p.(r := u.t))
  }

  // ---- the repairs restore the shape ----

  /** A node p that lacks one black level below it on one side, the other side being h high and
      rooted at a black node, comes back as d. */
  predicate Repaired(p: Tree, h: nat, d: Del)
    requires p.Node?
  {
    && Shaped(d.t)
    && (IsRed(d.t) ==> p.red) && (d.uf ==> !p.red && !IsRed(d.t))
    && BlackHeight(d.t) + (if d.uf then 1 else 0) == h + (if p.red then 0 else 1)
  }

  lemma FixLeftBlackShape(p: Tree)
    requires p.Node? && p.r.Node? && !p.r.red
    requires Shaped(p.l) && Shaped(p.r) && BlackHeight(p.l) + 1 == BlackHeight(p.r)
    ensures Repaired(p, BlackHeight(p.r), FixLeftBlack(p))
  {
    var s := p.r;
    Parts(s);
    if IsRed(s.r) {
      Parts(s.r);
      Whole(p.(r := s.l, red := false));
      Whole(s.r.(red := false));
    } else if IsRed(s.l) {
      Parts(s.l);
      Whole(p.(r := s.l.l, red := false));
      Whole(s.(l := s.l.r, red := false));
    } else {
      Whole(s.(red := true));
    }
  }

  lemma FixRightBlackShape(p: Tree)
    requires p.Node? && p.l.Node? && !p.l.red
    requires Shaped(p.l) && Shaped(p.r) && BlackHeight(p.r) + 1 == BlackHeight(p.l)
    ensures Repaired(p, BlackHeight(p.l), FixRightBlack(p))
  {
    var s := p.l;
    Parts(s);
    if IsRed(s.l) {
      Parts(s.l);
      Whole(p.(l := s.r, red := false));
      Whole(s.l.(red := false));
    } else if IsRed(s.r) {
      Parts(s.r);
      Whole(p.(l := s.r.r, red := false));
      Whole(s.(r := s.r.l, red := false));
    } else {
      Whole(s.(red := true));
    }
  }

  /** The left repair restores the shape, and its missing-sibling test (redblack.h:243) never fires. */
  lemma FixLeftShape(p: Tree, u: Del)
    requires p.Node? && Shaped(p) && DelOk(p.l, u)
    ensures u.uf ==> p.r.Node?
    ensures LeftFixable(p, u) && DelOk(p, FixLeft(p, u))
  {
    Parts(p);
    if u.uf {
      var s := p.r;
      Parts(p.l);
      Parts(s);
      if s.red {
        var p' := p.(l := u.t, r := s.l, red := true);
        FixLeftBlackShape(p');
        Whole(s.(red := false, l := FixLeftBlack(p').t));
      } else {
        FixLeftBlackShape(p.(l := u.t));
      }
    } else {
      Whole(p.(l := u.t));
    }
  }

  /** The right repair restores the shape, and its missing-sibling test (redblack.h:296) never fires. */
  lemma FixRightShape(p: Tree, u: Del)
    requires p.Node? && Shaped(p) && DelOk(p.r, u)
    ensures u.uf ==> p.l.Node?
    ensures RightFixable(p, u) && DelOk(p, FixRight(p, u))
  {
    Parts(p);
    if u.uf {
      var s := p.l;
      Parts(p.r);
      Parts(s);
      if s.red {
        var p' := p.(r := u.t, l := s.r, red := true);
        FixRightBlackShape(p');
        Whole(s.(red := false, r := FixRightBlack(p').t));
      } else {
        FixRightBlackShape(p.(r := u.t));
      }
    } else {
      Whole(p.(r := u.t));
    }
  }

  // ---- deletion, continued ----

  /** A subtree whose root node goes and whose only other child is c (redblack.h:318-323, 332-337). */
  function Splice(red: bool, c: Tree): Del {
    if c.Leaf? then Del(!red, Leaf) else Del(false, c.(red := false))
  }

  lemma SpliceShape(t: Tree)
    requires t.Node? && Shaped(t)
    ensures t.l.Leaf? ==> DelOk(t, Splice(t.red, t.r))
    ensures t.r.Leaf? ==> DelOk(t, Splice(t.red, t.l))
  {
    Parts(t);
    if t.r.Node? { Parts(t.r); }
    if t.l.Node? { Parts(t.l); }
  }

  datatype Min = Min(id: nat, k: nat, v: nat, d: Del)

  /** redblack.h:314-327: the smallest entry, its slot, and what is left. */
  function SplitMin(t: Tree): (m: Min)
    requires t.Node? && Shaped(t)
    ensures DelOk(t, m.d)
  {
    if t.l.Leaf? then
      SpliceShape(t);
      Min(t.id, t.k, t.v, Splice(t.red, t.r))
    else
      var m := SplitMin(t.l);
      FixLeftShape(t, m.d);
      m.(d := FixLeft(t, m.d))
  }

  /** redblack.h:330-345. */
  function DelHere(t: Tree): (d: Del)
    requires t.Node? && Shaped(t)
    ensures DelOk(t, d)
  {
    if t.r.Leaf? then
      SpliceShape(t);
      Splice(t.red, t.l)
    else
      var m := SplitMin(t.r);
      var p := t.(k := m.k, v := m.v);
      FixRightShape(p, m.d);
      FixRight(p, m.d)
  }

  /** redblack.h:363-370. */
  function DelV(t: Tree, k: nat): (d: Del)
    requires Shaped(t)
    ensures DelOk(t, d)
  {
    if t.Leaf? then Del(false, Leaf)
    else if k < t.k then
      var u := DelV(t.l, k);
      FixLeftShape(t, u);
      FixLeft(t, u)
    else if k > t.k then
      var u := DelV(t.r, k);
      FixRightShape(t, u);
      FixRight(t, u)
    else DelHere(t)
  }

  /** redblack.h:372-377. */
  function Remove(t: Tree, k: nat): Tree
    requires Shaped(t)
  {
    var o := DelV(t, k).t;
    if o.Node? then o.(red := false) else o
  }

  // ---- shape of insertion ----

  /** The one red-red edge an insertion may leave is between the root and one child. */
  predicate Infra(t: Tree) {
    && t.Node? && Shaped(t.l) && Shaped(t.r) && BlackHeight(t.l) == BlackHeight(t.r)
    && !(t.red && IsRed(t.l) && IsRed(t.r))
  }

  lemma SideParts(t: Tree)
    requires t.Node? && (Infra(t) || Shaped(t))
    ensures BlackHeight(t) == BlackHeight(t.l) + (if t.red then 0 else 1)
    ensures Shaped(t.l) && Shaped(t.r) && BlackHeight(t.l) == BlackHeight(t.r) && !(t.red && IsRed(t.l) && IsRed(t.r))
    ensures Shaped(t) ==> !(t.red && (IsRed(t.l) || IsRed(t.r)))
  {}

  lemma BlackHeightOf(t: Tree)
    requires t.Node?
    ensures BlackHeight(t) == BlackHeight(t.l) + (if t.red then 0 else 1)
  {}

  /** A black node over one child with such an edge and one shaped child is repaired. */
  lemma BalanceShape(t: Tree)
    requires t.Node? && !t.red && BlackHeight(t.l) == BlackHeight(t.r)
    requires (Infra(t.l) && Shaped(t.r)) || (Shaped(t.l) && Infra(t.r))
    ensures Shaped(Balance(t)) && BlackHeight(Balance(t)) == BlackHeight(t)
  {
    hide Shaped, BlackHeight;
    BlackHeightOf(t);
    if t.l.Node? { SideParts(t.l); }
    if t.r.Node? { SideParts(t.r); }
    if IsRed(t.l) && IsRed(t.l.l) {
      Parts(t.l.l);
      Whole(t.l.l.(red := false));
      Whole(t.(l := t.l.r, red := false));
      Whole(Balance(t));
    } else if IsRed(t.l) && IsRed(t.l.r) {
      Parts(t.l.r);
      Whole(t.l.(r := t.l.r.l, red := false));
      Whole(t.(l := t.l.r.r, red := false));
      Whole(Balance(t));
    } else if IsRed(t.r) && IsRed(t.r.l) {
      Parts(t.r.l);
      Whole(t.(r := t.r.l.l, red := false));
      Whole(t.r.(l := t.r.l.r, red := false));
      Whole(Balance(t));
    } else if IsRed(t.r) && IsRed(t.r.r) {
      Parts(t.r.r);
      Whole(t.r.r.(red := false));
      Whole(t.(r := t.r.l, red := false));
      Whole(Balance(t));
    } else {
      if Infra(t.l) { Whole(t.l); } else { Whole(t.r); }
      Whole(t);
    }
  }

  lemma {:induction false} InsShape(t: Tree, k: nat, v: nat, slot: nat)
    requires Shaped(t)
    ensures var o := Ins(t, k, v, slot);
            && Infra(o) && BlackHeight(o) == BlackHeight(t)
            && (!IsRed(t) ==> Shaped(o))
            && (IsRed(t) ==> o.red)
  {
    if t.Node? {
      Parts(t);
      if k < t.k {
        InsShape(t.l, k, v, slot);
        if !t.red { BalanceShape(t.(l := Ins(t.l, k, v, slot))); }
      } else if k > t.k {
        InsShape(t.r, k, v, slot);
        if !t.red { BalanceShape(t.(r := Ins(t.r, k, v, slot))); }
      }
    }
  }

  lemma InsertShape(t: Tree, k: nat, v: nat, slot: nat)
    requires Shaped(t)
    ensures var o := Insert(t, k, v, slot); Shaped(o) && !IsRed(o)
  {
    InsShape(t, k, v, slot);
  }

  lemma RemoveShape(t: Tree, k: nat)
    requires Shaped(t)
    ensures var o := Remove(t, k); Shaped(o) && !IsRed(o)
  {}

  // ---- height ----

  function Height(t: Tree): nat {
    if t.Leaf? then 0 else 1 + (if Height(t.l) > Height(t.r) then Height(t.l) else Height(t.r))
  }

  function Size(t: Tree): nat {
    if t.Leaf? then 0 else 1 + Size(t.l) + Size(t.r)
  }

  lemma {:induction false} HeightAndSize(t: Tree)
    requires Shaped(t)
    ensures Height(t) <= 2 * BlackHeight(t) + (if IsRed(t) then 1 else 0)
    ensures Pow2(BlackHeight(t)) <= Size(t) + 1
  {
    if t.Node? {
      HeightAndSize(t.l);
      HeightAndSize(t.r);
    }
  }

  /** height <= 2 log2(n + 1) */
  lemma HeightLogarithmic(t: Tree)
    requires Shaped(t) && !IsRed(t)
    ensures Pow2((Height(t) + 1) / 2) <= Size(t) + 1
  {
    HeightAndSize(t);
    Pow2Mono((Height(t) + 1) / 2, BlackHeight(t));
  }

  // ---- contents ----

  function Inorder(t: Tree): seq<Entry> {
    if t.Leaf? then [] else Inorder(t.l) + [Entry(t.k, t.v)] + Inorder(t.r)
  }

  ghost predicate Sorted(s: seq<Entry>) {
    forall i, j :: 0 <= i < j < |s| ==> s[i].k < s[j].k
  }

  /** The ordered map the entries stand for. */
  function AsMap(s: seq<Entry>): map<nat, nat> {
    if s == [] then map[] else AsMap(s[1..])[s[0].k := s[0].v]
  }

  /** The sorted sequence with k mapped to v. */
  function Put(s: seq<Entry>, k: nat, v: nat): seq<Entry> {
    if s == [] || k < s[0].k then [Entry(k, v)] + s
    else if k == s[0].k then [Entry(k, v)] + s[1..]
    else [s[0]] + Put(s[1..], k, v)
  }

  /** The sequence without the entry for k. */
  function Take(s: seq<Entry>, k: nat): seq<Entry> {
    if s == [] then []
    else if k == s[0].k then s[1..]
    else [s[0]] + Take(s[1..], k)
  }

  /** Every key lies strictly between lo and hi. */
  ghost predicate Within(s: seq<Entry>, lo: int, hi: int) {
    forall i :: 0 <= i < |s| ==> lo < s[i].k < hi
  }

  lemma SortedCons(e: Entry, s: seq<Entry>, hi: int)
    requires Sorted(s) && Within(s, e.k, hi)
    ensures Sorted([e] + s)
  {}

  lemma SortedTail(s: seq<Entry>, hi: int)
    requires Sorted(s) && s != [] && Within(s, -1, hi)
    ensures Sorted(s[1..]) && Within(s[1..], s[0].k, hi)
  {}

  lemma Bounded(s: seq<Entry>) returns (hi: int)
    ensures Within(s, -1, hi)
  {
    if s == [] {
      hi := 0;
    } else {
      hi := Bounded(s[1..]);
      if hi <= s[0].k { hi := s[0].k + 1; }
      forall i | 0 <= i < |s| ensures -1 < s[i].k < hi { if i > 0 { assert s[i] == s[1..][i - 1]; } }
    }
  }

  lemma {:induction false} PutKeeps(s: seq<Entry>, k: nat, v: nat, lo: int, hi: int)
    requires Sorted(s) && Within(s, lo, hi) && lo < k < hi
    ensures Sorted(Put(s, k, v)) && Within(Put(s, k, v), lo, hi)
  {
    if s == [] || k < s[0].k {
    } else if k > s[0].k {
      PutKeeps(s[1..], k, v, s[0].k, hi);
      SortedCons(s[0], Put(s[1..], k, v), hi);
    }
  }

  lemma {:induction false} TakeKeeps(s: seq<Entry>, k: nat, lo: int, hi: int)
    requires Sorted(s) && Within(s, lo, hi)
    ensures Sorted(Take(s, k)) && Within(Take(s, k), lo, hi)
  {
    if s != [] && k != s[0].k {
      TakeKeeps(s[1..], k, s[0].k, hi);
      SortedCons(s[0], Take(s[1..], k), hi);
    }
  }

  lemma {:induction false} AsMapWithin(s: seq<Entry>, lo: int, hi: int)
    requires Within(s, lo, hi)
    ensures forall k :: k in AsMap(s) ==> lo < k < hi
  {
    if s != [] { AsMapWithin(s[1..], lo, hi); }
  }

  /** Put is map update and Take is map removal. */
  lemma {:induction false} PutIsUpdate(s: seq<Entry>, k: nat, v: nat)
    ensures AsMap(Put(s, k, v)) == AsMap(s)[k := v]
  {
    if s == [] || k < s[0].k {
      assert ([Entry(k, v)] + s)[1..] == s;
    } else if k == s[0].k {
      assert ([Entry(k, v)] + s[1..])[1..] == s[1..];
    } else {
      PutIsUpdate(s[1..], k, v);
      assert ([s[0]] + Put(s[1..], k, v))[1..] == Put(s[1..], k, v);
    }
  }

  lemma {:induction false} TakeIsRemoval(s: seq<Entry>, k: nat, hi: int)
    requires Sorted(s) && Within(s, -1, hi)
    ensures AsMap(Take(s, k)) == AsMap(s) - {k}
  {
    if s != [] {
      SortedTail(s, hi);
      AsMapWithin(s[1..], s[0].k, hi);
      if k != s[0].k {
        TakeIsRemoval(s[1..], k, hi);
        assert ([s[0]] + Take(s[1..], k))[1..] == Take(s[1..], k);
      }
    }
  }

  // ---- Put and Take around a middle entry ----

  lemma FirstOf(a: seq<Entry>, e: Entry, b: seq<Entry>)
    ensures a == [] ==> a + [e] + b == [e] + b
    ensures a != [] ==> a + [e] + b == [a[0]] + (a[1..] + [e] + b)
    ensures a != [] ==> (a + [e] + b)[1..] == a[1..] + [e] + b
    ensures a != [] ==> a + b == [a[0]] + (a[1..] + b)
    ensures a == [] ==> a + b == b
  {}

  lemma {:induction false} PutBefore(a: seq<Entry>, e: Entry, b: seq<Entry>, k: nat, v: nat)
    requires k < e.k
    ensures Put(a + [e] + b, k, v) == Put(a, k, v) + [e] + b
  {
    FirstOf(a, e, b);
    if a != [] {
      PutBefore(a[1..], e, b, k, v);
      FirstOf(Put(a, k, v), e, b);
      if k > a[0].k { assert Put(a, k, v)[1..] == Put(a[1..], k, v); }
      if k < a[0].k { assert Put(a, k, v)[1..] == a; }
    }
  }

  lemma {:induction false} PutAfter(a: seq<Entry>, e: Entry, b: seq<Entry>, k: nat, v: nat)
    requires Within(a, -1, e.k) && e.k <= k
    ensures k > e.k ==> Put(a + [e] + b, k, v) == a + [e] + Put(b, k, v)
    ensures k == e.k ==> Put(a + [e] + b, k, v) == a + [Entry(k, v)] + b
  {
    FirstOf(a, e, b);
    if a != [] {
      PutAfter(a[1..], e, b, k, v);
      FirstOf(a, e, Put(b, k, v));
      FirstOf(a, Entry(k, v), b);
    }
  }

  lemma {:induction false} TakeBefore(a: seq<Entry>, e: Entry, b: seq<Entry>, k: nat, hi: int)
    requires k < e.k && Within(b, e.k, hi)
    ensures Take(a + [e] + b, k) == Take(a, k) + [e] + b
  {
    FirstOf(a, e, b);
    if a == [] { TakeAbsent(b, k); } else { TakeBefore(a[1..], e, b, k, hi); }
  }

  lemma {:induction false} TakeAfter(a: seq<Entry>, e: Entry, b: seq<Entry>, k: nat)
    requires Within(a, -1, e.k) && e.k <= k
    ensures k > e.k ==> Take(a + [e] + b, k) == a + [e] + Take(b, k)
    ensures k == e.k ==> Take(a + [e] + b, k) == a + b
  {
    FirstOf(a, e, b);
    if a != [] {
      TakeAfter(a[1..], e, b, k);
      FirstOf(a, e, Take(b, k));
    }
  }

  lemma {:induction false} TakeAbsent(s: seq<Entry>, k: nat)
    requires forall i :: 0 <= i < |s| ==> s[i].k != k
    ensures Take(s, k) == s
  {
    if s != [] { TakeAbsent(s[1..], k); }
  }

  // ---- the trees hold what the sequence operations say ----

  lemma Reassociate(a: seq<Entry>, x: Entry, b: seq<Entry>, y: Entry, c: seq<Entry>)
    ensures (a + [x] + b) + [y] + c == a + [x] + (b + [y] + c)
  {}

  /** A right rotation, and read backwards a left one, keeps the entries. */
  lemma RotateInorder(t: Tree)
    requires t.Node?
    ensures t.l.Node? ==> Inorder(t) == Inorder(t.l.l) + [Entry(t.l.k, t.l.v)] + Inorder(t.(l := t.l.r))
    ensures t.r.Node? ==> Inorder(t) == Inorder(t.(r := t.r.l)) + [Entry(t.r.k, t.r.v)] + Inorder(t.r.r)
  {
    if t.l.Node? {
      Reassociate(Inorder(t.l.l), Entry(t.l.k, t.l.v), Inorder(t.l.r), Entry(t.k, t.v), Inorder(t.r));
    }
    if t.r.Node? {
      Reassociate(Inorder(t.l), Entry(t.k, t.v), Inorder(t.r.l), Entry(t.r.k, t.r.v), Inorder(t.r.r));
    }
  }

  lemma {:induction false} RecolourInorder(t: Tree, red: bool)
    requires t.Node?
    ensures Inorder(t.(red := red)) == Inorder(t)
  {}

  lemma BalanceInorder(t: Tree)
    requires t.Node?
    ensures Inorder(Balance(t)) == Inorder(t)
  {
    var l, r := t.l, t.r;
    if !t.red && IsRed(l) && IsRed(l.l) {
      RotateInorder(t);
    } else if !t.red && IsRed(l) && IsRed(l.r) {
      RotateInorder(l);
      RotateInorder(t.(l := l.r.(l := l.(r := l.r.l))));
    } else if !t.red && IsRed(r) && IsRed(r.l) {
      RotateInorder(r);
      RotateInorder(t.(r := r.l.(r := r.(l := r.l.r))));
    } else {
      RotateInorder(t);
    }
  }

  lemma SortedParts(a: seq<Entry>, e: Entry, b: seq<Entry>, lo: int, hi: int)
    requires Sorted(a + [e] + b) && Within(a + [e] + b, lo, hi)
    ensures lo < e.k < hi
    ensures Sorted(a) && Within(a, lo, e.k)
    ensures Sorted(b) && Within(b, e.k, hi)
  {
    var s := a + [e] + b;
    assert s[|a|] == e;
    forall i | 0 <= i < |a| ensures a[i] == s[i] {}
    forall i | 0 <= i < |b| ensures b[i] == s[|a| + 1 + i] {}
  }

  lemma SortedNode(t: Tree, lo: int, hi: int)
    requires t.Node? && Sorted(Inorder(t)) && Within(Inorder(t), lo, hi)
    ensures lo < t.k < hi
    ensures Sorted(Inorder(t.l)) && Within(Inorder(t.l), lo, t.k)
    ensures Sorted(Inorder(t.r)) && Within(Inorder(t.r), t.k, hi)
  {
    SortedParts(Inorder(t.l), Entry(t.k, t.v), Inorder(t.r), lo, hi);
  }

  lemma {:induction false} InsInorder(t: Tree, k: nat, v: nat, slot: nat, hi: int)
    requires Sorted(Inorder(t)) && Within(Inorder(t), -1, hi)
    ensures Inorder(Ins(t, k, v, slot)) == Put(Inorder(t), k, v)
  {
    if t.Node? {
      SortedNode(t, -1, hi);
      var a, e, b := Inorder(t.l), Entry(t.k, t.v), Inorder(t.r);
      if k < t.k {
        InsInorder(t.l, k, v, slot, t.k);
        BalanceInorder(t.(l := Ins(t.l, k, v, slot)));
        PutBefore(a, e, b, k, v);
      } else {
        PutAfter(a, e, b, k, v);
        if k > t.k {
          InsInorder(t.r, k, v, slot, hi);
          BalanceInorder(t.(r := Ins(t.r, k, v, slot)));
        }
      }
    }
  }

  lemma FixLeftBlackInorder(p: Tree)
    requires p.Node? && p.r.Node?
    ensures Inorder(FixLeftBlack(p).t) == Inorder(p)
  {
    var s := p.r;
    if IsRed(s.r) || !IsRed(s.l) {
      RotateInorder(p);
    } else {
      RotateInorder(s);
      RotateInorder(p.(r := s.l.(r := s.(l := s.l.r))));
    }
  }

  lemma FixRightBlackInorder(p: Tree)
    requires p.Node? && p.l.Node?
    ensures Inorder(FixRightBlack(p).t) == Inorder(p)
  {
    var s := p.l;
    if IsRed(s.l) || !IsRed(s.r) {
      RotateInorder(p);
    } else {
      RotateInorder(s);
      RotateInorder(p.(l := s.r.(l := s.(r := s.r.l))));
    }
  }

  /** A repair leaves the entries alone: p's own, between those of u and of the other child. */
  lemma FixLeftInorder(p: Tree, u: Del)
    requires LeftFixable(p, u)
    ensures Inorder(FixLeft(p, u).t) == Inorder(u.t) + [Entry(p.k, p.v)] + Inorder(p.r)
  {
    if u.uf && p.r.Node? {
      if p.r.red {
        FixLeftBlackInorder(p.(l := u.t, r := p.r.l, red := true));
      } else {
        FixLeftBlackInorder(p.(l := u.t));
      }
    }
  }

  lemma FixRightInorder(p: Tree, u: Del)
    requires RightFixable(p, u)
    ensures Inorder(FixRight(p, u).t) == Inorder(p.l) + [Entry(p.k, p.v)] + Inorder(u.t)
  {
    if u.uf && p.l.Node? {
      if p.l.red {
        FixRightBlackInorder(p.(r := u.t, l := p.l.r, red := true));
      } else {
        FixRightBlackInorder(p.(r := u.t));
      }
    }
  }

  lemma {:induction false} SplitMinInorder(t: Tree)
    requires t.Node? && Shaped(t)
    ensures var m := SplitMin(t); Inorder(t) == [Entry(m.k, m.v)] + Inorder(m.d.t)
  {
    hide FixLeft, DelOk;
    if t.l.Leaf? {
      assert Inorder(t) == [Entry(t.k, t.v)] + Inorder(t.r);
    } else {
      SplitMinInorder(t.l);
      var u := SplitMin(t.l).d;
      FixLeftShape(t, u);
      FixLeftInorder(t, u);
      FirstOf(Inorder(t.l), Entry(t.k, t.v), Inorder(t.r));
      assert Inorder(t.l)[1..] == Inorder(u.t);
    }
  }

  lemma DelHereInorder(t: Tree)
    requires t.Node? && Shaped(t)
    ensures Inorder(DelHere(t).t) == Inorder(t.l) + Inorder(t.r)
  {
    if t.r.Leaf? {
      assert Inorder(t.l) + [] == Inorder(t.l);
    } else {
      SplitMinInorder(t.r);
      var m := SplitMin(t.r);
      var p := t.(k := m.k, v := m.v);
      FixRightShape(p, m.d);
      FixRightInorder(p, m.d);
    }
  }

  lemma {:induction false} DelInorder(t: Tree, k: nat, hi: int)
    requires Shaped(t) && Sorted(Inorder(t)) && Within(Inorder(t), -1, hi)
    ensures Inorder(DelV(t, k).t) == Take(Inorder(t), k)
  {
    if t.Node? {
      SortedNode(t, -1, hi);
      var a, e, b := Inorder(t.l), Entry(t.k, t.v), Inorder(t.r);
      if k < t.k {
        DelInorder(t.l, k, t.k);
        FixLeftShape(t, DelV(t.l, k));
        FixLeftInorder(t, DelV(t.l, k));
        TakeBefore(a, e, b, k, hi);
      } else {
        TakeAfter(a, e, b, k);
        if k > t.k {
          DelInorder(t.r, k, hi);
          FixRightShape(t, DelV(t.r, k));
          FixRightInorder(t, DelV(t.r, k));
        } else {
          DelHereInorder(t);
        }
      }
    }
  }

  // ---- queries ----

  datatype Option<T> = None | Some(value: T)

  /** redblack.h:381-393 as a recursion on the subtree. */
  function Search(t: Tree, k: nat): Option<nat> {
    if t.Leaf? then None
    else if k < t.k then Search(t.l, k)
    else if k > t.k then Search(t.r, k)
    else Some(t.v)
  }

  function Get(m: map<nat, nat>, k: nat): Option<nat> {
    if k in m then Some(m[k]) else None
  }

  lemma {:induction false} AsMapAppend(a: seq<Entry>, e: Entry, b: seq<Entry>, k: nat, hi: int)
    requires Within(a, -1, e.k) && Within(b, e.k, hi)
    ensures Get(AsMap(a + [e] + b), k) ==
            if k < e.k then Get(AsMap(a), k) else if k > e.k then Get(AsMap(b), k) else Some(e.v)
  {
    FirstOf(a, e, b);
    if a == [] {
      AsMapWithin(b, e.k, hi);
    } else {
      AsMapAppend(a[1..], e, b, k, hi);
      AsMapWithin(a[1..], -1, e.k);
    }
  }

  lemma {:induction false} SearchIsGet(t: Tree, k: nat, hi: int)
    requires Sorted(Inorder(t)) && Within(Inorder(t), -1, hi)
    ensures Search(t, k) == Get(AsMap(Inorder(t)), k)
    ensures Finds(t, k) <==> Search(t, k).Some?
  {
    if t.Node? {
      SortedNode(t, -1, hi);
      AsMapAppend(Inorder(t.l), Entry(t.k, t.v), Inorder(t.r), k, hi);
      if k < t.k {
        SearchIsGet(t.l, k, t.k);
      } else if k > t.k {
        SearchIsGet(t.r, k, hi);
      }
    }
  }

  /** redblack.h:412-430 as a recursion: the first entry with key at least k, else `best`. */
  function Lower(t: Tree, k: nat, best: Option<Entry>): Option<Entry> {
    if t.Leaf? then best
    else if t.k < k then Lower(t.r, k, best)
    else if t.k == k then Some(Entry(t.k, t.v))
    else Lower(t.l, k, Some(Entry(t.k, t.v)))
  }

  function FirstAtLeast(s: seq<Entry>, k: nat): Option<Entry> {
    if s == [] then None else if s[0].k >= k then Some(s[0]) else FirstAtLeast(s[1..], k)
  }

  lemma {:induction false} FirstAtLeastAround(a: seq<Entry>, e: Entry, b: seq<Entry>, k: nat)
    requires Within(a, -1, e.k)
    ensures FirstAtLeast(a + [e] + b, k) ==
            if e.k < k then FirstAtLeast(b, k)
            else if FirstAtLeast(a, k).Some? then FirstAtLeast(a, k) else Some(e)
    ensures e.k <= k ==> FirstAtLeast(a, k).None?
  {
    FirstOf(a, e, b);
    if a != [] {
      assert a[0].k < e.k;
      FirstAtLeastAround(a[1..], e, b, k);
    }
  }

  lemma {:induction false} LowerIsFirst(t: Tree, k: nat, best: Option<Entry>, hi: int)
    requires Sorted(Inorder(t)) && Within(Inorder(t), -1, hi)
    ensures var f := FirstAtLeast(Inorder(t), k); Lower(t, k, best) == if f.Some? then f else best
  {
    if t.Node? {
      SortedNode(t, -1, hi);
      var e := Entry(t.k, t.v);
      FirstAtLeastAround(Inorder(t.l), e, Inorder(t.r), k);
      if t.k < k {
        LowerIsFirst(t.r, k, best, hi);
      } else if t.k > k {
        LowerIsFirst(t.l, k, Some(e), t.k);
      }
    }
  }

  /** redblack.h:433-438: the pruned walk, folding any step over the entries it meets. */
  function Range<A>(t: Tree, lo: nat, hi: nat, c: A, go: bool, step: (A, nat, nat) -> A): A {
    if !go || t.Leaf? then c
    else
      var c1 := Range(t.l, lo, hi, c, lo < t.k, step);
      var c2 := if lo <= t.k < hi then step(c1, t.k, t.v) else c1;
      Range(t.r, lo, hi, c2, t.k < hi, step)
  }

  function FoldIn<A>(s: seq<Entry>, lo: nat, hi: nat, c: A, step: (A, nat, nat) -> A): A {
    if s == [] then c
    else FoldIn(s[1..], lo, hi, if lo <= s[0].k < hi then step(c, s[0].k, s[0].v) else c, step)
  }

  lemma {:induction false} FoldInAppend<A>(a: seq<Entry>, e: Entry, b: seq<Entry>, lo: nat, hi: nat, c: A,
                                           step: (A, nat, nat) -> A)
    ensures FoldIn(a + [e] + b, lo, hi, c, step) ==
            var c1 := FoldIn(a, lo, hi, c, step);
            FoldIn(b, lo, hi, if lo <= e.k < hi then step(c1, e.k, e.v) else c1, step)
  {
    FirstOf(a, e, b);
    if a != [] {
      FoldInAppend(a[1..], e, b, lo, hi, if lo <= a[0].k < hi then step(c, a[0].k, a[0].v) else c, step);
    }
  }

  lemma {:induction false} FoldInOutside<A>(s: seq<Entry>, lo: nat, hi: nat, c: A, step: (A, nat, nat) -> A)
    requires forall i :: 0 <= i < |s| ==> !(lo <= s[i].k < hi)
    ensures FoldIn(s, lo, hi, c, step) == c
  {
    if s != [] { FoldInOutside(s[1..], lo, hi, c, step); }
  }

  /** Pruning loses nothing: the walk folds exactly the entries with lo <= key < hi, in key order. */
  lemma {:induction false} RangeIsFold<A>(t: Tree, lo: nat, hi: nat, c: A, step: (A, nat, nat) -> A, top: int)
    requires Sorted(Inorder(t)) && Within(Inorder(t), -1, top)
    ensures Range(t, lo, hi, c, true, step) == FoldIn(Inorder(t), lo, hi, c, step)
  {
    if t.Node? {
      SortedNode(t, -1, top);
      FoldInAppend(Inorder(t.l), Entry(t.k, t.v), Inorder(t.r), lo, hi, c, step);
      if lo < t.k { RangeIsFold(t.l, lo, hi, c, step, t.k); } else { FoldInOutside(Inorder(t.l), lo, hi, c, step); }
      var c1 := FoldIn(Inorder(t.l), lo, hi, c, step);
      var c2 := if lo <= t.k < hi then step(c1, t.k, t.v) else c1;
      if t.k < hi { RangeIsFold(t.r, lo, hi, c2, step, top); } else { FoldInOutside(Inorder(t.r), lo, hi, c2, step); }
    }
  }

  // ---- the queries on the map ----

  /** The bindings of a sorted sequence are its entries. */
  lemma {:induction false} Binding(s: seq<Entry>, e: Entry)
    requires Sorted(s)
    ensures e in s <==> e.k in AsMap(s) && AsMap(s)[e.k] == e.v
  {
    if s != [] {
      SortedRest(s);
      Binding(s[1..], e);
      assert e in s <==> e == s[0] || e in s[1..];
      KeyBelow(s, e.k);
    }
  }

  lemma SortedRest(s: seq<Entry>)
    requires Sorted(s) && s != []
    ensures Sorted(s[1..])
  {}

  lemma KeyBelow(s: seq<Entry>, k: nat)
    requires Sorted(s) && s != []
    ensures k in AsMap(s[1..]) ==> s[0].k < k
  {
    var hi := Bounded(s);
    AsMapWithin(s[1..], s[0].k, hi);
  }

  /** The entry that a lower bound answers: bound, with key at least k, and the least such key; none
      when all keys are less. */
  lemma {:induction false} LeastAtLeast(s: seq<Entry>, k: nat)
    requires Sorted(s)
    ensures FirstAtLeast(s, k).None? ==> forall x :: x in AsMap(s) ==> x < k
    ensures FirstAtLeast(s, k).Some? ==>
              var e := FirstAtLeast(s, k).value;
              e.k >= k && e.k in AsMap(s) && AsMap(s)[e.k] == e.v && forall x :: x in AsMap(s) && x >= k ==> e.k <= x
  {
    if s != [] {
      SortedRest(s);
      LeastAtLeast(s[1..], k);
      forall x | x in AsMap(s[1..]) ensures s[0].k < x { KeyBelow(s, x); }
    }
  }

  /** The entries with lo <= key < hi. */
  function Between(s: seq<Entry>, lo: nat, hi: nat): seq<Entry> {
    if s == [] then [] else (if lo <= s[0].k < hi then [s[0]] else []) + Between(s[1..], lo, hi)
  }

  /** Every binding of the map with a key in range, once, in key order, and nothing else. */
  lemma {:induction false} BetweenIs(s: seq<Entry>, lo: nat, hi: nat, e: Entry)
    requires Sorted(s)
    ensures e in Between(s, lo, hi) <==> lo <= e.k < hi && e.k in AsMap(s) && AsMap(s)[e.k] == e.v
    ensures forall i, j :: 0 <= i < j < |Between(s, lo, hi)| ==> Between(s, lo, hi)[i].k < Between(s, lo, hi)[j].k
  {
    BetweenMember(s, lo, hi, e);
    Binding(s, e);
    BetweenSorted(s, lo, hi);
  }

  lemma {:induction false} BetweenMember(s: seq<Entry>, lo: nat, hi: nat, e: Entry)
    ensures e in Between(s, lo, hi) <==> lo <= e.k < hi && e in s
  {
    if s != [] {
      BetweenMember(s[1..], lo, hi, e);
      assert e in s <==> e == s[0] || e in s[1..];
    }
  }

  lemma {:induction false} BetweenSorted(s: seq<Entry>, lo: nat, hi: nat)
    requires Sorted(s)
    ensures Sorted(Between(s, lo, hi))
  {
    if s != [] {
      SortedRest(s);
      BetweenSorted(s[1..], lo, hi);
      var r := Between(s[1..], lo, hi);
      forall i | 0 <= i < |r| ensures s[0].k < r[i].k {
        BetweenMember(s[1..], lo, hi, r[i]);
        var j :| 0 <= j < |s[1..]| && s[1..][j] == r[i];
      }
    }
  }

  function Folded<A>(es: seq<Entry>, c: A, step: (A, nat, nat) -> A): A
    decreases |es|
  {
    if es == [] then c else
    var n := |es| - 1;
    step(Folded(es[..n], c, step), es[n].k, es[n].v)
  }

  /** A fold goes from the first entry to the last. */
  lemma FoldedIs<A>(es: seq<Entry>, e: Entry, c: A, step: (A, nat, nat) -> A)
    ensures Folded([], c, step) == c && Folded(es + [e], c, step) == step(Folded(es, c, step), e.k, e.v)
  {
    assert (es + [e])[..|es|] == es;
  }

  lemma {:induction false} FoldedCons<A>(e: Entry, es: seq<Entry>, c: A, step: (A, nat, nat) -> A)
    ensures Folded([e] + es, c, step) == Folded(es, step(c, e.k, e.v), step)
    decreases |es|
  {
    if es == [] {
      assert ([e] + es)[..0] == [];
    } else {
      var n := |es| - 1;
      FoldedCons(e, es[..n], c, step);
      assert ([e] + es)[..|es|] == [e] + es[..n];
    }
  }

  lemma {:induction false} FoldInIs<A>(s: seq<Entry>, lo: nat, hi: nat, c: A, step: (A, nat, nat) -> A)
    ensures FoldIn(s, lo, hi, c, step) == Folded(Between(s, lo, hi), c, step)
  {
    if s != [] {
      if lo <= s[0].k < hi {
        FoldInIs(s[1..], lo, hi, step(c, s[0].k, s[0].v), step);
        FoldedCons(s[0], Between(s[1..], lo, hi), c, step);
      } else {
        FoldInIs(s[1..], lo, hi, c, step);
        assert [] + Between(s[1..], lo, hi) == Between(s[1..], lo, hi);
      }
    }
  }
}
