/** What the answers of the list operations by handle say of one another
    (benchmarks/native/doubly_linked_list.c:16-88): where an insertion puts its node, which nodes a
    removal joins, and that all other handles keep their values and neighbours. */
module HandleLaws {
  import opened Sequences
  import opened DList
  import opened DListRuns

  /** The neighbour query of a run in the state m is answered by o. */
  predicate Says(m: seq<Pair>, h: Handle, forward: bool, o: Out) { Allowed(m, {}, Neighbour(h, forward), o) }

  /** Reading h in the state m answers v. */
  predicate Reads(m: seq<Pair>, h: Handle, v: nat) { Allowed(m, {}, Get(h), Got(v)) }

  /** Where nothing is inserted there is one answer, and it does not depend on the handles issued. */
  lemma OneAnswer(m: seq<Pair>, issued: set<Handle>, op: Op, a: Out, b: Out)
    requires !Inserts(m, op) && Allowed(m, issued, op, a) && Allowed(m, {}, op, b)
    ensures a == b
  {}

  // ---- places ----

  lemma PlaceAt(m: seq<Pair>, issued: set<Handle>, i: nat)
    requires Sound(m, issued) && i < |m|
    ensures Place(m, m[i].h) == i
  {
    hide Place;
  }

  lemma PlacePut(m: seq<Pair>, issued: set<Handle>, j: nat, p: Pair, k: Handle)
    requires Sound(m, issued) && j <= |m| && p.h !in issued
    ensures var r := Put(m, j, p);
            Place(r, k) == if k == p.h then j else if Place(m, k) < j then Place(m, k) else Place(m, k) + 1
  {
    hide Place, Sound;
    var r, i := Put(m, j, p), Place(m, k);
    assert forall a :: 0 <= a < |r| ==> r[a] == if a < j then m[a] else if a == j then p else m[a - 1];
    PutSound(m, j, p, issued);
    if k == p.h {
      PlaceAt(r, issued + {p.h}, j);
    } else if i < |m| {
      PlaceAt(r, issued + {p.h}, if i < j then i else i + 1);
    } else {
      assert forall a :: 0 <= a < |m| ==> m[a].h != k;
    }
  }

  lemma PlaceDrop(m: seq<Pair>, issued: set<Handle>, d: nat, k: Handle)
    requires Sound(m, issued) && d < |m| && k != m[d].h
    ensures Place(Drop(m, d), k) == if Place(m, k) < d then Place(m, k) else Place(m, k) - 1
  {
    hide Place, Sound;
    var r, i := Drop(m, d), Place(m, k);
    assert forall a :: 0 <= a < |r| ==> r[a] == if a < d then m[a] else m[a + 1];
    DropSound(m, d, issued);
    if i < |m| {
      PlaceAt(r, issued, if i < d then i else i - 1);
    } else {
      assert forall a :: 0 <= a < |m| ==> m[a].h != k;
    }
  }

  // ---- neighbours ----

  /** Neighbours are mutual. */
  lemma Mutual(m: seq<Pair>, issued: set<Handle>, h: Handle, forward: bool, g: Handle)
    requires Sound(m, issued) && Says(m, h, forward, Adjacent(g))
    ensures Says(m, g, !forward, Adjacent(h))
  {
    hide Place;
    PlaceAt(m, issued, if forward then Place(m, h) + 1 else Place(m, h) - 1);
  }

  /** An insertion at gap j leaves the answers alone that do not cross the gap. */
  lemma PutSays(m: seq<Pair>, issued: set<Handle>, j: nat, p: Pair, k: Handle, forward: bool, o: Out)
    requires Sound(m, issued) && j <= |m| && p.h !in issued && k != p.h && Says(m, k, forward, o)
    requires Place(m, k) < |m| ==> Place(m, k) != (if forward then j - 1 else j)
    ensures Says(Put(m, j, p), k, forward, o)
  {
    hide Place, Sound;
    PlacePut(m, issued, j, p, k);
    PutAt(m, j, p);
  }

  lemma PutReads(m: seq<Pair>, issued: set<Handle>, j: nat, p: Pair, k: Handle, v: nat)
    requires Sound(m, issued) && j <= |m| && p.h !in issued && k != p.h && Reads(m, k, v)
    ensures Reads(Put(m, j, p), k, v)
  {
    hide Place, Sound;
    PlacePut(m, issued, j, p, k);
    PutAt(m, j, p);
    var c := Place(m, k);
    assert Put(m, j, p)[if c < j then c else c + 1] == m[c];
  }

  lemma PutAt(m: seq<Pair>, j: nat, p: Pair)
    requires j <= |m|
    ensures |Put(m, j, p)| == |m| + 1 && Put(m, j, p)[j] == p
    ensures forall a :: 0 <= a < j ==> Put(m, j, p)[a] == m[a]
    ensures forall a :: j <= a < |m| ==> Put(m, j, p)[a + 1] == m[a]
  {}

  /** The new node lies between the nodes around the gap. */
  lemma PutBetween(m: seq<Pair>, issued: set<Handle>, j: nat, p: Pair)
    requires Sound(m, issued) && j <= |m| && p.h !in issued
    ensures var r := Put(m, j, p);
            && Says(r, p.h, false, if j == 0 then NoNeighbour else Adjacent(m[j - 1].h))
            && Says(r, p.h, true, if j == |m| then NoNeighbour else Adjacent(m[j].h))
            && (j > 0 ==> Says(r, m[j - 1].h, true, Adjacent(p.h)))
            && (j < |m| ==> Says(r, m[j].h, false, Adjacent(p.h)))
            && Reads(r, p.h, p.v)
  {
    hide Place, Sound;
    PutAt(m, j, p);
    PlacePut(m, issued, j, p, p.h);
    if j > 0 { PlaceListed(m, issued, j - 1, p.h); PlacePut(m, issued, j, p, m[j - 1].h); }
    if j < |m| { PlaceListed(m, issued, j, p.h); PlacePut(m, issued, j, p, m[j].h); }
  }

  lemma PlaceListed(m: seq<Pair>, issued: set<Handle>, i: nat, g: Handle)
    requires Sound(m, issued) && i < |m| && g !in issued
    ensures Place(m, m[i].h) == i && m[i].h != g
  {
    PlaceAt(m, issued, i);
  }

  /** A node inserted after or before h lies there, between h and what was h's neighbour there. */
  lemma BesideIs(m: seq<Pair>, issued: set<Handle>, h: Handle, x: nat, after: bool, g: Handle, o: Out)
    requires Sound(m, issued) && Place(m, h) < |m| && g !in issued && Says(m, h, after, o)
    ensures var m' := After1(m, InsertBeside(h, x, after), Given(g));
            && Says(m', h, after, Adjacent(g)) && Says(m', g, !after, Adjacent(h)) && Says(m', g, after, o)
            && (o.Adjacent? ==> Says(m', o.h, !after, Adjacent(g)))
            && Reads(m', g, x)
  {
    hide Place, Sound, Put;
    var i := Place(m, h);
    PutBetween(m, issued, if after then i + 1 else i, Pair(g, x));
  }

  /** Nothing else is affected by it. */
  lemma BesideKeeps(m: seq<Pair>, issued: set<Handle>, h: Handle, x: nat, after: bool, g: Handle,
                    k: Handle, forward: bool, o: Out, v: nat)
    requires Sound(m, issued) && Place(m, h) < |m| && g !in issued && k != g
    ensures var m' := After1(m, InsertBeside(h, x, after), Given(g));
            && (Says(m, k, forward, o) && (k, forward) != (h, after) && (o, forward) != (Adjacent(h), !after) ==>
                  Says(m', k, forward, o))
            && (Reads(m, k, v) ==> Reads(m', k, v))
  {
    hide Place, Sound, Put, Reads;
    var i := Place(m, h);
    var j, p := if after then i + 1 else i, Pair(g, x);
    if Says(m, k, forward, o) && (k, forward) != (h, after) && (o, forward) != (Adjacent(h), !after) {
      if Place(m, k) == i { assert m[i].h == k; }
      PutSays(m, issued, j, p, k, forward, o);
    }
    if Reads(m, k, v) { PutReads(m, issued, j, p, k, v); }
  }

  /** A push puts its node at that end: it has no neighbour beyond, and what was the end is next to it. */
  lemma PushIs(m: seq<Pair>, issued: set<Handle>, x: nat, front: bool, g: Handle, k: Handle)
    requires Sound(m, issued) && g !in issued
    ensures var m' := After1(m, if front then PushFront(x) else PushBack(x), Given(g));
            && Says(m', g, !front, NoNeighbour) && Reads(m', g, x)
            && (m == [] ==> Says(m', g, front, NoNeighbour))
            && (Says(m, k, !front, NoNeighbour) ==> Says(m', k, !front, Adjacent(g)) && Says(m', g, front, Adjacent(k)))
  {
    hide Place, Sound, Put;
    PutBetween(m, issued, if front then 0 else |m|, Pair(g, x));
  }

  lemma PushKeeps(m: seq<Pair>, issued: set<Handle>, x: nat, front: bool, g: Handle,
                  k: Handle, forward: bool, o: Out, v: nat)
    requires Sound(m, issued) && g !in issued && k != g
    ensures var m' := After1(m, if front then PushFront(x) else PushBack(x), Given(g));
            && (Says(m, k, forward, o) && (o, forward) != (NoNeighbour, !front) ==> Says(m', k, forward, o))
            && (Reads(m, k, v) ==> Reads(m', k, v))
  {
    hide Place, Sound, Put, Reads;
    var j, p := if front then 0 else |m|, Pair(g, x);
    if Says(m, k, forward, o) && (o, forward) != (NoNeighbour, !front) {
      PutSays(m, issued, j, p, k, forward, o);
    }
    if Reads(m, k, v) { PutReads(m, issued, j, p, k, v); }
  }

  // ---- removal ----

  lemma DropAt(m: seq<Pair>, d: nat)
    requires d < |m|
    ensures forall a :: 0 <= a < |m| - 1 ==> Drop(m, d)[a] == m[if a < d then a else a + 1]
  {}

  /** A removal answers the value that a read would have answered. */
  lemma RemovalReads(m: seq<Pair>, h: Handle, v: nat)
    ensures Allowed(m, {}, RemoveBy(h), Removed(v)) <==> Reads(m, h, v)
  {}

  /** A removal joins the neighbours of its node. */
  lemma RemovalJoins(m: seq<Pair>, issued: set<Handle>, h: Handle, k: Handle, forward: bool, o: Out, v: nat)
    requires Sound(m, issued) && Says(m, k, forward, Adjacent(h)) && Says(m, h, forward, o) && k != h
    ensures Says(After1(m, RemoveBy(h), Removed(v)), k, forward, o)
  {
    hide Place, Sound, Drop;
    var c := Place(m, k);
    PlaceAt(m, issued, if forward then c + 1 else c - 1);
    DropAt(m, Place(m, h));
    PlaceDrop(m, issued, Place(m, h), k);
  }

  /** All other answers about other nodes stay. */
  lemma RemovalKeeps(m: seq<Pair>, issued: set<Handle>, h: Handle, k: Handle, forward: bool, o: Out, v: nat)
    requires Sound(m, issued) && Says(m, k, forward, o) && o != Adjacent(h) && k != h
    ensures Says(After1(m, RemoveBy(h), Removed(v)), k, forward, o)
  {
    hide Place, Sound, Drop;
    var d, c := Place(m, h), Place(m, k);
    if d < |m| {
      DropAt(m, d);
      PlaceDrop(m, issued, d, k);
      DifferentPlaces(m, h, k);
    }
  }

  lemma DifferentPlaces(m: seq<Pair>, h: Handle, k: Handle)
    requires h != k && Place(m, h) < |m|
    ensures Place(m, k) != Place(m, h)
  {}

  lemma RemovalReadsOn(m: seq<Pair>, issued: set<Handle>, h: Handle, k: Handle, v: nat, w: nat)
    requires Sound(m, issued) && Reads(m, k, w) && k != h
    ensures Reads(After1(m, RemoveBy(h), Removed(v)), k, w)
  {
    hide Place, Sound, Drop;
    var d, c := Place(m, h), Place(m, k);
    if d < |m| {
      DropAt(m, d);
      PlaceDrop(m, issued, d, k);
      DifferentPlaces(m, h, k);
    }
  }

  // ---- writing ----

  /** Writing by handle changes what that handle reads, and nothing else. */
  lemma WriteIs(m: seq<Pair>, issued: set<Handle>, h: Handle, x: nat, k: Handle, forward: bool, o: Out, v: nat)
    requires Sound(m, issued) && Place(m, h) < |m|
    ensures var m' := After1(m, Set(h, x), Stored);
            && Reads(m', h, x)
            && (Says(m, k, forward, o) ==> Says(m', k, forward, o))
            && (k != h && Reads(m, k, v) ==> Reads(m', k, v))
  {
    hide Place, Sound;
    var i := Place(m, h);
    var r := m[i := Pair(h, x)];
    SetSound(m, i, x, issued);
    SetPlace(m, r, issued, k); SetPlace(m, r, issued, h);
    if Place(m, k) == i { assert m[i].h == k; }
  }

  lemma SetPlace(m: seq<Pair>, r: seq<Pair>, issued: set<Handle>, k: Handle)
    requires |r| == |m| && Sound(r, issued) && forall i :: 0 <= i < |m| ==> r[i].h == m[i].h
    ensures Place(r, k) == Place(m, k)
  {
    hide Place, Sound;
    var i := Place(m, k);
    if i < |m| { PlaceAt(r, issued, i); } else { assert forall a :: 0 <= a < |m| ==> m[a].h != k; }
  }

  /** Reading and asking change nothing. */
  lemma AskingKeeps(m: seq<Pair>, h: Handle, forward: bool, out: Out)
    ensures After1(m, Get(h), out) == m && After1(m, Neighbour(h, forward), out) == m
  {}

  /** A handle that is not in the list is answered stale by every operation on it, and changes nothing. */
  lemma StaleIs(m: seq<Pair>, issued: set<Handle>, h: Handle, op: Op, out: Out)
    requires By(op, h) && Allowed(m, issued, op, out) && (forall v :: !Reads(m, h, v))
    ensures out == Stale && After1(m, op, out) == m
  {
    hide Place, Reads;
    ReadsOwn(m, h);
  }

  lemma ReadsOwn(m: seq<Pair>, h: Handle)
    ensures Place(m, h) < |m| ==> Reads(m, h, m[Place(m, h)].v)
  {}
}
