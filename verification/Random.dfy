/** Bounded draws and the shuffle of benchmarks/native/gorand.h:127-150 over an arbitrary source of
    64-bit words: Lemire's multiplication with rejection is exactly uniform, and the shuffle maps
    choice sequences onto permutations one to one. */
module Random {
  import opened Arith
  import opened Sequences
  import opened Terms

  const W64: nat := 0x1_0000_0000_0000_0000

  // ---- one bounded draw ----

  /** The high word of x n: the value drawn. */
  function Hi(w: nat, x: nat, n: nat): nat
    requires w > 0
  {
    DivMod(x * n, w);
    (x * n) / w
  }

  function Lo(w: nat, x: nat, n: nat): nat
    requires w > 0
  {
    DivMod(x * n, w);
    (x * n) % w
  }

  /** -n % n on w-element words. */
  function Threshold(w: nat, n: nat): (t: nat)
    requires 0 < n <= w
    ensures t == w % n && t < n
  {
    DivMod(w - n, n);
    ModAddMultiple(w - n, 1, n);
    (w - n) % n
  }

  predicate Accepted(w: nat, x: nat, n: nat)
    requires 0 < n <= w
  {
    Lo(w, x, n) >= Threshold(w, n)
  }

  /** The words that are accepted and yield k. */
  ghost function Yielding(w: nat, n: nat, k: nat): set<nat>
    requires 0 < n <= w
  {
    set x: nat | x < w && Accepted(w, x, n) && Hi(w, x, n) == k
  }

  ghost function Interval(a: nat, b: nat): (s: set<nat>)
    requires a <= b
    ensures |s| == b - a && forall x :: x in s <==> a <= x < b
    decreases b - a
  {
    if a == b then {} else {a} + Interval(a + 1, b)
  }

  /** x is accepted and yields k exactly when k w + t <= x n < (k + 1) w. */
  lemma YieldRange(w: nat, n: nat, k: nat, x: nat)
    requires 0 < n <= w
    ensures Accepted(w, x, n) && Hi(w, x, n) == k <==> k * w + w % n <= x * n < k * w + w
  {
    var q, r := (x * n) / w, (x * n) % w;
    DivMod(x * n, w);
    if q < k { MulStrict(q, k, w); }
    if k < q { MulStrict(k, q, w); }
  }

  /** The first x with x n >= c. */
  function Ceil(c: nat, n: nat): nat
    requires n > 0
  {
    DivMod(c, n);
    if c % n == 0 then c / n else c / n + 1
  }

  lemma CeilIs(c: nat, n: nat, x: nat)
    requires n > 0
    ensures x * n >= c <==> x >= Ceil(c, n)
  {
    DivMod(c, n);
    var q := c / n;
    if x > q { MulMono(q + 1, x, n); } else { MulMono(x, q, n); }
    if x < q { MulStrict(x, q, n); }
  }

  /** The words that yield k are floor(w / n) consecutive ones. */
  lemma YieldInterval(w: nat, n: nat, k: nat, x: nat)
    requires k < n <= w
    ensures var a := Ceil(k * w + w % n, n);
            x < w && Accepted(w, x, n) && Hi(w, x, n) == k <==> a <= x < a + w / n
  {
    hide Ceil, Accepted, Hi;
    YieldRange(w, n, k, x);
    DivMod(w, n);
    var q: nat, t: nat := w / n, w % n;
    MulMono(0, k, w);
    var c: nat := k * w + t;
    CeilIs(c, n, x);
    if x >= q { CeilIs(c, n, x - q); Shifted(x, q, n); } else { MulStrict(x, q, n); }
    if x >= w { MulMono(w, x, n); MulMono(k + 1, n, w); Shifted(k + 1, 1, w); }
  }

  lemma Shifted(x: int, q: int, n: int)
    ensures (x - q) * n == x * n - q * n
  {}

  /** Every k below n is drawn from exactly floor(w / n) of the w words. */
  lemma UnbiasedDraw(w: nat, n: nat, k: nat)
    requires k < n <= w
    ensures |Yielding(w, n, k)| == w / n
  {
    hide Ceil, Accepted, Hi;
    MulMono(0, k, w);
    DivMod(w, n);
    var a, q := Ceil(k * w + w % n, n), w / n;
    forall x: nat ensures x in Yielding(w, n, k) <==> x in Interval(a, a + q) {
      YieldInterval(w, n, k, x);
    }
    assert Yielding(w, n, k) == Interval(a, a + q);
  }

  // ---- the power-of-two branch ----

  ghost predicate IsPow2(n: nat) { exists j: nat :: n == Pow2(j) }

  /** n & (n - 1) == 0 picks out the powers of two. */
  lemma {:induction false} PowerOfTwo(n: nat)
    requires n > 0
    ensures And(n, n - 1) == 0 <==> IsPow2(n)
  {
    hide IsPow2;
    if n % 2 == 1 {
      AndSelf(n / 2);
      assert And(n, n - 1) == 2 * And(n / 2, n / 2);
      OddPow2(n);
    } else {
      PowerOfTwo(n / 2);
      assert And(n, n - 1) == 2 * And(n / 2, n / 2 - 1);
      HalfPow2(n / 2);
    }
  }

  lemma OddPow2(n: nat)
    requires n % 2 == 1
    ensures IsPow2(n) <==> n == 1
  {
    assert Pow2(0) == 1;
    if IsPow2(n) {
      var j: nat :| n == Pow2(j);
      if j > 0 { Pow2Succ(j - 1); }
    }
  }

  lemma HalfPow2(n: nat)
    ensures IsPow2(2 * n) <==> IsPow2(n)
  {
    if IsPow2(n) {
      var j: nat :| n == Pow2(j);
      assert 2 * n == Pow2(j + 1);
    }
    if IsPow2(2 * n) {
      var j: nat :| 2 * n == Pow2(j);
      assert j > 0 && n == Pow2(j - 1);
    }
  }

  lemma {:induction false} AndSelf(a: nat)
    ensures And(a, a) == a
  {
    if a > 0 { AndSelf(a / 2); }
  }

  function Masked(x: nat, n: nat): nat
    requires n > 0
  {
    And(x, n - 1)
  }

  ghost function Masking(w: nat, n: nat, k: nat): set<nat>
    requires n > 0
  {
    set x: nat | x < w && Masked(x, n) == k
  }

  predicate Leaves(x: nat, n: nat, k: nat)
    requires n > 0
  {
    x % n == k
  }

  ghost function Residues(n: nat, q: nat, k: nat): set<nat>
    requires n > 0
  {
    set x: nat | x < q * n && Leaves(x, n, k)
  }

  lemma {:induction false} ResidueCount(n: nat, q: nat, k: nat)
    requires k < n
    ensures |Residues(n, q, k)| == q
  {
    if q == 0 {
      assert Residues(n, q, k) == {};
    } else {
      ResidueCount(n, q - 1, k);
      var y := (q - 1) * n + k;
      MulMono(0, q - 1, n);
      forall x: nat ensures x in Residues(n, q, k) <==> x in Residues(n, q - 1, k) + {y} {
        ResidueStep(n, q, k, x);
      }
      assert Residues(n, q, k) == Residues(n, q - 1, k) + {y};
    }
  }

  lemma ResidueStep(n: nat, q: nat, k: nat, x: nat)
    requires k < n && q > 0
    ensures x < q * n && x % n == k <==> (x < (q - 1) * n && x % n == k) || x == (q - 1) * n + k
  {
    DivModUnique((q - 1) * n + k, n, q - 1, k);
    Shifted(q, 1, n);
    if (q - 1) * n <= x < q * n { DivModUnique(x, n, q - 1, x - (q - 1) * n); }
  }

  /** Masking is exactly uniform too: 2^(width - j) words for each k below 2^j. */
  lemma UnbiasedMask(width: nat, j: nat, k: nat)
    requires j <= width && k < Pow2(j)
    ensures |Masking(Pow2(width), Pow2(j), k)| == Pow2(width) / Pow2(j)
  {
    hide Pow2, Masking, Residues;
    Pow2Mono(j, width);
    var q: nat := Pow2(width - j);
    assert Pow2(width) == q * Pow2(j) + 0;
    MaskingResidues(Pow2(width), j, q, k);
    ResidueCount(Pow2(j), q, k);
    DivModUnique(Pow2(width), Pow2(j), q, 0);
  }

  lemma MaskingResidues(w: nat, j: nat, q: nat, k: nat)
    requires w == q * Pow2(j)
    ensures Masking(w, Pow2(j), k) == Residues(Pow2(j), q, k)
  {
    hide Pow2, And;
    forall x: nat ensures x in Masking(w, Pow2(j), k) <==> x in Residues(Pow2(j), q, k) { AndMask(x, j); }
  }

  // ---- the draw over a source ----

  /** A source of 64-bit words. */
  class Source {
    const words: nat -> nat
    var pos: nat

    constructor (words: nat -> nat)
      ensures this.words == words && pos == 0
    {
      this.words := words;
      pos := 0;
    }

    ghost predicate Valid()
    {
      forall p: nat :: words(p) < W64
    }

    method Next() returns (x: nat)
      modifies this`pos
      ensures x == words(old(pos)) && pos == old(pos) + 1
    {
      x := words(pos);
      pos := pos + 1;
    }
  }

  /** n & (n - 1) == 0 on 64-bit words, where 0 - 1 wraps. */
  predicate MaskBranch(n: nat)
    requires n < W64
  {
    And(n, (n + W64 - 1) % W64) == 0
  }

  /** The draw from position pos yields k and ends at end: a masked word for powers of two (for 0 the
      word itself), otherwise the high word of the first accepted product. */
  ghost predicate Drawn(words: nat -> nat, pos: nat, n: nat, k: nat, end: nat)
    requires n < W64
  {
    && pos < end
    && (if n == 0 then end == pos + 1 && k == words(pos)
        else if IsPow2(n) then end == pos + 1 && k == words(pos) % n
        else
          && Accepted(W64, words(end - 1), n) && k == Hi(W64, words(end - 1), n)
          && forall p :: pos <= p < end - 1 ==> !Accepted(W64, words(p), n))
  }

  /** What a draw is in numbers: with x the last word taken, x n = k 2^64 + l and l is not among the
      first 2^64 mod n remainders; every word taken before is among them. */
  lemma DrawnIs(words: nat -> nat, pos: nat, n: nat, k: nat, end: nat)
    requires n < W64 && Drawn(words, pos, n, k, end)
    ensures pos < end
    ensures n == 0 ==> end == pos + 1 && k == words(pos)
    ensures (exists j: nat :: n == Pow2(j)) ==> end == pos + 1 && k == words(pos) % n
    ensures n > 0 && (forall j: nat :: n != Pow2(j)) ==>
              && k * W64 + W64 % n <= words(end - 1) * n < (k + 1) * W64
              && forall p :: pos <= p < end - 1 ==> words(p) * n % W64 < W64 % n
  {
    if n > 0 && !IsPow2(n) { DivMod(words(end - 1) * n, W64); }
  }

  /** gorand.h:127-137; last is a position from which on some word is accepted. */
  method Uint64n(r: Source, n: nat, ghost last: nat) returns (k: nat)
    requires r.Valid() && n < W64
    requires n > 0 && !IsPow2(n) ==> r.pos <= last && Accepted(W64, r.words(last), n)
    modifies r`pos
    ensures Drawn(r.words, old(r.pos), n, k, r.pos)
    ensures n > 0 ==> k < n
    ensures old(r.pos) < r.pos && (n > 0 && !IsPow2(n) ==> r.pos <= last + 1)
  {
    MaskBranchIs(n);
    if And(n, (n + W64 - 1) % W64) == 0 {
      var x := r.Next();
      k := And(x, (n + W64 - 1) % W64);
      MaskedDraw(x, n);
      return;
    }
    var x := r.Next();
    k := Hi(W64, x, n);
    var lo := Lo(W64, x, n);
    HiBelow(W64, x, n);
    if lo < n {
      var thresh := Threshold(W64, n);
      while lo < thresh
        invariant old(r.pos) < r.pos <= last + 1
        invariant x == r.words(r.pos - 1) && lo == Lo(W64, x, n) && k == Hi(W64, x, n) && k < n
        invariant forall p :: old(r.pos) <= p < r.pos - 1 ==> !Accepted(W64, r.words(p), n)
        decreases last + 1 - r.pos
      {
        x := r.Next();
        k, lo := Hi(W64, x, n), Lo(W64, x, n);
        HiBelow(W64, x, n);
      }
    }
  }

  lemma HiBelow(w: nat, x: nat, n: nat)
    requires x < w && n > 0
    ensures Hi(w, x, n) < n
  {
    MulStrict(x, w, n);
    DivBelow(x * n, n, w);
  }

  lemma MaskBranchIs(n: nat)
    requires n < W64
    ensures MaskBranch(n) <==> n == 0 || IsPow2(n)
  {
    if n > 0 {
      ModAddMultiple(n - 1, 1, W64);
      ModSmall(n - 1, W64);
      PowerOfTwo(n);
    }
  }

  lemma MaskedDraw(x: nat, n: nat)
    requires x < W64 && n < W64 && (n == 0 || IsPow2(n))
    ensures And(x, (n + W64 - 1) % W64) == if n == 0 then x else x % n
    ensures n > 0 ==> x % n < n
  {
    hide And, Pow2;
    MaskIs(n);
    if n == 0 {
      Pow2Values();
      AndMask(x, 64);
      ModSmall(x, W64);
    } else {
      var j: nat :| n == Pow2(j);
      AndMask(x, j);
      DivMod(x, n);
    }
  }

  lemma MaskIs(n: nat)
    requires n < W64
    ensures (n + W64 - 1) % W64 == if n == 0 then W64 - 1 else n - 1
  {
    if n > 0 { DivModUnique(n + W64 - 1, W64, 1, n - 1); } else { ModSmall(W64 - 1, W64); }
  }

  // ---- the shuffle ----

  function Swapped(s: seq<nat>, i: nat, j: nat): (r: seq<nat>)
    requires i < |s| && j < |s|
    ensures |r| == |s|
  {
    s[i := s[j]][j := s[i]]
  }

  /** The choices for the top |ds| positions: the entry for position i is at most i. */
  predicate Choice(ds: seq<nat>, n: nat) {
    |ds| <= n && forall m :: 0 <= m < |ds| ==> ds[m] <= n - |ds| + m
  }

  /** The list after the exchanges for the top |ds| positions, the highest first. */
  function Exchanged(s: seq<nat>, ds: seq<nat>): (r: seq<nat>)
    requires Choice(ds, |s|)
    ensures |r| == |s|
    decreases |ds|
  {
    if ds == [] then s else
    assert Choice(ds[1..], |s|);
    Swapped(Exchanged(s, ds[1..]), |s| - |ds|, ds[0])
  }

  /** No choice, no exchange; one more choice j exchanges the entries at j and at the next position. */
  lemma ExchangedIs(s: seq<nat>, j: nat, ds: seq<nat>, a: nat)
    requires |ds| < |s| && Choice(ds, |s|) && j <= |s| - |ds| - 1 && a < |s|
    ensures Exchanged(s, []) == s && Choice([j] + ds, |s|)
    ensures var i, t := |s| - |ds| - 1, Exchanged(s, ds);
            Exchanged(s, [j] + ds)[a] == if a == i then t[j] else if a == j then t[i] else t[a]
  {
    assert ([j] + ds)[1..] == ds;
  }

  lemma SwapMultiset(s: seq<nat>, i: nat, j: nat)
    requires i < |s| && j < |s|
    ensures multiset(Swapped(s, i, j)) == multiset(s)
    ensures Distinct(s) ==> Distinct(Swapped(s, i, j))
  {}

  /** Whatever is drawn, the result is a permutation of the input. */
  lemma {:induction false} ExchangedMultiset(s: seq<nat>, ds: seq<nat>)
    requires Choice(ds, |s|)
    ensures multiset(Exchanged(s, ds)) == multiset(s)
    ensures Distinct(s) ==> Distinct(Exchanged(s, ds))
    decreases |ds|
  {
    hide Swapped, Distinct;
    if ds != [] {
      ExchangedMultiset(s, ds[1..]);
      SwapMultiset(Exchanged(s, ds[1..]), |s| - |ds|, ds[0]);
    }
  }

  predicate AgreeFrom(a: seq<nat>, b: seq<nat>, i: nat) {
    |a| == |b| && forall k :: i <= k < |a| ==> a[k] == b[k]
  }

  /** The exchange at i leaves the entries above i alone and puts entry j at i. */
  lemma OneExchange(s: seq<nat>, ds: seq<nat>)
    requires ds != [] && Choice(ds, |s|)
    ensures Choice(ds[1..], |s|)
    ensures var i, t := |s| - |ds|, Exchanged(s, ds[1..]);
            ds[0] <= i && AgreeFrom(Exchanged(s, ds), t, i + 1) && Exchanged(s, ds)[i] == t[ds[0]]
  {
    hide Swapped, AgreeFrom;
    TailChoice(ds, |s|);
    SwapEntries(Exchanged(s, ds[1..]), |s| - |ds|, ds[0]);
  }

  lemma TailChoice(ds: seq<nat>, n: nat)
    requires ds != [] && Choice(ds, n)
    ensures Choice(ds[1..], n) && ds[0] <= n - |ds|
  {}

  lemma SwapEntries(t: seq<nat>, i: nat, j: nat)
    requires j <= i < |t|
    ensures AgreeFrom(Swapped(t, i, j), t, i + 1) && Swapped(t, i, j)[i] == t[j]
  {}

  /** Two choice sequences that leave the same top entries are the same. */
  lemma {:induction false} ChoiceUnique(s: seq<nat>, ds: seq<nat>, es: seq<nat>)
    requires Distinct(s) && |ds| == |es| && Choice(ds, |s|) && Choice(es, |s|)
    requires AgreeFrom(Exchanged(s, ds), Exchanged(s, es), |s| - |ds|)
    ensures ds == es
    decreases |ds|
  {
    hide Exchanged, Choice;
    if ds != [] {
      OneExchange(s, ds); OneExchange(s, es);
      ChoiceUnique(s, ds[1..], es[1..]);
      ExchangedMultiset(s, ds[1..]);
      assert ds == [ds[0]] + ds[1..] && es == [es[0]] + es[1..];
    }
  }

  /** The choices that lead from s to p, for the positions from i on. */
  lemma {:induction false} ChoiceExists(s: seq<nat>, p: seq<nat>, i: nat) returns (ds: seq<nat>)
    requires multiset(s) == multiset(p) && i <= |s| == |p|
    ensures |ds| == |s| - i && Choice(ds, |s|) && AgreeFrom(Exchanged(s, ds), p, i)
    decreases |s| - i
  {
    hide Exchanged;
    if i == |s| {
      ds := [];
      ExchangedMultiset(s, ds);
    } else {
      var rest := ChoiceExists(s, p, i + 1);
      ExchangedMultiset(s, rest);
      var t := Exchanged(s, rest);
      var j := TopEntry(t, p, i);
      ds := [j] + rest;
      Prepend(s, rest, j);
      AgreeMore(Exchanged(s, ds), t, p, i);
    }
  }

  lemma Prepend(s: seq<nat>, rest: seq<nat>, j: nat)
    requires Choice(rest, |s|) && |rest| < |s| && j <= |s| - |rest| - 1
    ensures var ds, i, t := [j] + rest, |s| - |rest| - 1, Exchanged(s, rest);
            Choice(ds, |s|) && AgreeFrom(Exchanged(s, ds), t, i + 1) && Exchanged(s, ds)[i] == t[j]
  {
    hide Exchanged;
    assert ([j] + rest)[1..] == rest;
    OneExchange(s, [j] + rest);
  }

  lemma AgreeMore(r: seq<nat>, t: seq<nat>, p: seq<nat>, i: nat)
    requires i < |r| && AgreeFrom(r, t, i + 1) && AgreeFrom(t, p, i + 1) && r[i] == p[i]
    ensures AgreeFrom(r, p, i)
  {}

  /** Above agreeing tops, the next entry is still among the lower ones. */
  lemma TopEntry(t: seq<nat>, p: seq<nat>, i: nat) returns (j: nat)
    requires multiset(t) == multiset(p) && i < |t| && AgreeFrom(t, p, i + 1)
    ensures j <= i && t[j] == p[i]
  {
    assert t == t[..i + 1] + t[i + 1..] && p == p[..i + 1] + p[i + 1..];
    assert t[i + 1..] == p[i + 1..];
    CancelMultiset(multiset(t[..i + 1]), multiset(p[..i + 1]), multiset(t[i + 1..]));
    assert p[i] == p[..i + 1][i];
    assert p[i] in multiset(t[..i + 1]);
    j :| j < |t[..i + 1]| && t[..i + 1][j] == p[i];
  }

  lemma CancelMultiset(a: multiset<nat>, b: multiset<nat>, c: multiset<nat>)
    requires a + c == b + c
    ensures a == b
  {
    forall x ensures a[x] == b[x] { assert (a + c)[x] == (b + c)[x]; }
  }

  /** On distinct items every permutation arises from exactly one choice sequence. */
  lemma ShuffleBijection(s: seq<nat>, p: seq<nat>)
    requires Distinct(s) && s != [] && multiset(s) == multiset(p)
    ensures exists ds :: |ds| == |s| - 1 && Choice(ds, |s|) && Exchanged(s, ds) == p
    ensures forall ds, es ::
              (|ds| == |es| == |s| - 1 && Choice(ds, |s|) && Choice(es, |s|)
               && Exchanged(s, ds) == p && Exchanged(s, es) == p) ==> ds == es
  {
    assert |p| == |multiset(p)| && |s| == |multiset(s)|;
    var ds := ChoiceExists(s, p, 1);
    ExchangedMultiset(s, ds);
    var r := Exchanged(s, ds);
    LastEntry(r, p);
    forall es, fs | |es| == |fs| == |s| - 1 && Choice(es, |s|) && Choice(fs, |s|)
                    && Exchanged(s, es) == p && Exchanged(s, fs) == p
      ensures es == fs
    {
      ChoiceUnique(s, es, fs);
    }
  }

  lemma LastEntry(r: seq<nat>, p: seq<nat>)
    requires |r| > 0 && multiset(r) == multiset(p) && AgreeFrom(r, p, 1)
    ensures r == p
  {
    assert r[1..] == p[1..];
    assert r == [r[0]] + r[1..] && p == [p[0]] + p[1..];
    assert multiset([r[0]]) == multiset(r) - multiset(r[1..]) && multiset([p[0]]) == multiset(p) - multiset(p[1..]);
    assert r[0] in multiset([p[0]]);
  }

  /** From position pos on every draw ends whose bound is at most top and no power of two. */
  ghost predicate Fair(words: nat -> nat, pos: nat, top: nat)
    requires top < W64
  {
    forall p: nat, n: nat :: pos <= p && 2 <= n <= top && !IsPow2(n) ==> Ends(words, p, n)
  }

  ghost predicate Ends(words: nat -> nat, p: nat, n: nat)
    requires 0 < n < W64
  {
    exists q: nat :: p <= q && AcceptedAt(words, q, n)
  }

  ghost predicate AcceptedAt(words: nat -> nat, q: nat, n: nat)
    requires 0 < n < W64
  {
    Accepted(W64, words(q), n)
  }

  /** The choices in ds were drawn one after the other, for the highest position first. */
  ghost predicate DrawnAll(words: nat -> nat, pos: nat, n: nat, ds: seq<nat>, end: nat)
    requires |ds| < n < W64
    decreases |ds|
  {
    if ds == [] then end == pos
    else exists mid :: DrawnAll(words, pos, n, ds[1..], mid) && Drawn(words, mid, n - |ds| + 1, ds[0], end)
  }

  /** gorand.h:145-150. */
  method Shuffle(r: Source, xs: array<nat>) returns (ghost ds: seq<nat>)
    requires r.Valid() && xs.Length < W64 && Fair(r.words, r.pos, xs.Length)
    modifies r`pos, xs
    ensures |ds| == (if xs.Length == 0 then 0 else xs.Length - 1) && Choice(ds, xs.Length)
    ensures xs.Length > 0 ==> DrawnAll(r.words, old(r.pos), xs.Length, ds, r.pos)
    ensures xs[..] == Exchanged(old(xs[..]), ds)
  {
    hide Drawn, Exchanged, Swapped, Accepted, Fair, Ends, IsPow2;
    ghost var s := xs[..];
    var i := xs.Length;
    ds := [];
    Undrawn(r.words, r.pos, xs.Length, s);
    while i > 1
      invariant 0 <= i <= xs.Length && old(r.pos) <= r.pos
      invariant |ds| == xs.Length - i && Choice(ds, xs.Length)
      invariant xs.Length > 0 ==> i > 0 && DrawnAll(r.words, old(r.pos), xs.Length, ds, r.pos)
      invariant xs[..] == Exchanged(s, ds)
    {
      i := i - 1;
      ghost var last := FairDraw(r.words, old(r.pos), xs.Length, r.pos, i + 1);
      ghost var mid, t := r.pos, xs[..];
      var j := Uint64n(r, i + 1, last);
      OneDrawn(r.words, old(r.pos), s, ds, mid, t, i, j, r.pos);
      xs[i], xs[j] := xs[j], xs[i];
      assert xs[..] == Swapped(t, i, j) by { SwappedIs(t, i, j); }
      ds := [j] + ds;
    }
  }

  lemma SwappedIs(t: seq<nat>, i: nat, j: nat)
    requires i < |t| && j < |t|
    ensures Swapped(t, i, j) == t[i := t[j]][j := t[i]]
  {}

  lemma Undrawn(words: nat -> nat, pos: nat, n: nat, s: seq<nat>)
    ensures Choice([], n) && (|s| == n ==> Exchanged(s, []) == s)
    ensures 0 < n < W64 ==> DrawnAll(words, pos, n, [], pos)
  {}

  lemma FairDraw(words: nat -> nat, pos: nat, top: nat, p: nat, n: nat) returns (q: nat)
    requires top < W64 && Fair(words, pos, top) && pos <= p && 2 <= n <= top
    ensures !IsPow2(n) ==> p <= q && Accepted(W64, words(q), n)
  {
    hide Accepted, IsPow2;
    q := p;
    if !IsPow2(n) {
      assert Ends(words, p, n);
      q :| p <= q && AcceptedAt(words, q, n);
    }
  }

  lemma OneDrawn(words: nat -> nat, pos: nat, s: seq<nat>, ds: seq<nat>, mid: nat, t: seq<nat>, i: nat, j: nat,
                 end: nat)
    requires 0 < i < |s| < W64 && |ds| == |s| - i - 1 && Choice(ds, |s|) && t == Exchanged(s, ds)
    requires DrawnAll(words, pos, |s|, ds, mid) && j <= i && Drawn(words, mid, i + 1, j, end)
    ensures Choice([j] + ds, |s|) && Exchanged(s, [j] + ds) == Swapped(t, i, j)
    ensures DrawnAll(words, pos, |s|, [j] + ds, end)
  {
    hide Drawn, Swapped;
    assert ([j] + ds)[1..] == ds;
  }
}
