/** The theory of pointer scanning: when the rotations that start with one character are known in
    order, those one place before them are known in order too.  The scan feeds on what it finds:
    rotations that start with the character twice are found from those that start with it once. */
module ScanOrder {
  import opened Rotations
  import opened RotationRanks
  import opened SmallBuckets

  // ---- a rotation against an endless run of one character ----

  /** Three-way comparison of the first h characters with a run of c. */
  function Against(b: Block, x: nat, c: byte, h: nat): (r: int)
    requires |b| > 0
    ensures -1 <= r <= 1
    decreases h
  {
    if h == 0 then 0
    else if Char(b, x) < c then -1
    else if Char(b, x) > c then 1
    else Against(b, x + 1, c, h - 1)
  }

  lemma {:induction false} AgainstWrap(b: Block, x: nat, c: byte, h: nat)
    requires |b| > 0
    ensures Against(b, x + |b|, c, h) == Against(b, x, c, h)
    decreases h
  {
    if h > 0 {
      AgainstWrap(b, x + 1, c, h - 1);
      assert x + 1 + |b| == x + |b| + 1;
    }
  }

  lemma {:induction false} AgainstMore(b: Block, x: nat, c: byte, h: nat, m: nat)
    requires |b| > 0 && Against(b, x, c, h) != 0
    ensures Against(b, x, c, h + m) == Against(b, x, c, h)
    decreases h
  {
    if Char(b, x) == c { AgainstMore(b, x + 1, c, h - 1, m); }
  }

  lemma {:induction false} AgainstSame(b: Block, x: nat, c: byte, h: nat, i: nat)
    requires |b| > 0 && Against(b, x, c, h) == 0 && i < h
    ensures Char(b, x + i) == c
    decreases h
  {
    if i > 0 { AgainstSame(b, x + 1, c, h - 1, i - 1); }
  }

  /** Equal to a run all the way round means that the block is nothing else. */
  lemma AllSame(b: Block, x: nat, c: byte, i: nat)
    requires x < |b| && Against(b, x, c, |b|) == 0 && i < |b|
    ensures b[i] == c
  {
    if i >= x {
      AgainstSame(b, x, c, |b|, i - x);
    } else {
      AgainstSame(b, x, c, |b|, i + |b| - x);
    }
  }

  lemma {:induction false} RunAgainst(b: Block, x: nat, c: byte, h: nat)
    requires |b| > 0 && forall i :: 0 <= i < |b| ==> b[i] == c
    ensures Against(b, x, c, h) == 0
    decreases h
  {
    CharIs(b, x, c);
    if h > 0 { RunAgainst(b, x + 1, c, h - 1); }
  }

  lemma {:induction false} CharIs(b: Block, x: nat, c: byte)
    requires |b| > 0 && forall i :: 0 <= i < |b| ==> b[i] == c
    ensures Char(b, x) == c
    decreases x
  {
    if x >= |b| { CharIs(b, x - |b|, c); }
  }

  /** One place before, behind one more c, a rotation is on the same side. */
  lemma AgainstBack(b: Block, k: nat, c: byte)
    requires k < |b| && b[k] == c
    ensures Against(b, k, c, |b|) == Against(b, Wrap(|b|, k + 1), c, |b|)
  {
    var y := Wrap(|b|, k + 1);
    if k + 1 == |b| { AgainstWrap(b, 0, c, |b|); }
    assert Against(b, k + 1, c, |b|) == Against(b, y, c, |b|);
    assert Against(b, k, c, |b| + 1) == Against(b, k + 1, c, |b|);
    if Against(b, k, c, |b|) != 0 {
      AgainstMore(b, k, c, |b|, 1);
    } else {
      forall i | 0 <= i < |b| ensures b[i] == c { AllSame(b, k, c, i); }
      RunAgainst(b, y, c, |b|);
    }
  }

  lemma {:induction false} AgainstOrder(b: Block, x: nat, y: nat, c: byte, h: nat)
    requires |b| > 0 && Against(b, x, c, h) < 0 < Against(b, y, c, h)
    ensures Cmp(b, x, y, h) < 0
    decreases h
  {
    if Char(b, x) == Char(b, y) { AgainstOrder(b, x + 1, y + 1, c, h - 1); }
  }

  // ---- lists of rotations ----

  /** On which side of a run of c: smaller for the scan from the left, greater from the right. */
  predicate OnSide(b: Block, c: byte, left: bool, x: nat)
    requires |b| > 0
  {
    if left then Against(b, x, c, |b|) < 0 else Against(b, x, c, |b|) > 0
  }

  ghost predicate InDirection(rk: seq<nat>, left: bool, x: nat, y: nat)
    requires x < |rk| && y < |rk|
  {
    if left then rk[x] <= rk[y] else rk[x] >= rk[y]
  }

  ghost predicate Distinct(xs: seq<nat>) {
    forall i, j :: 0 <= i < j < |xs| ==> xs[i] != xs[j]
  }

  ghost predicate Ordered(rk: seq<nat>, left: bool, xs: seq<nat>)
    requires forall i :: 0 <= i < |xs| ==> xs[i] < |rk|
  {
    forall i, j :: 0 <= i < j < |xs| ==> InDirection(rk, left, xs[i], xs[j])
  }

  /** Rotations that start with c, on one side, each once and in order. */
  ghost predicate Listed(b: Block, rk: seq<nat>, c: byte, left: bool, xs: seq<nat>) {
    && |b| > 0 && |rk| == |b|
    && (forall i :: 0 <= i < |xs| ==> xs[i] < |b| && b[xs[i]] == c && OnSide(b, c, left, xs[i]))
    && Distinct(xs) && Ordered(rk, left, xs)
  }

  /** The rotations one place before those of xs, as far as they start with t. */
  function Placed(b: Block, xs: seq<nat>, t: byte): (w: seq<nat>)
    requires forall i :: 0 <= i < |xs| ==> xs[i] < |b|
    ensures |w| <= |xs|
  {
    if xs == [] then [] else
    var k := Pred(|b|, xs[|xs| - 1]);
    Placed(b, xs[..|xs| - 1], t) + if b[k] == t then [k] else []
  }

  lemma PlacedNext(b: Block, xs: seq<nat>, x: nat, t: byte)
    requires x < |b| && forall i :: 0 <= i < |xs| ==> xs[i] < |b|
    ensures Placed(b, xs + [x], t) == Placed(b, xs, t) + if b[Pred(|b|, x)] == t then [Pred(|b|, x)] else []
  {
    assert (xs + [x])[..|xs|] == xs;
  }

  /** Everything placed comes from the list. */
  lemma {:induction false} PlacedFrom(b: Block, xs: seq<nat>, t: byte, r: nat) returns (i: nat)
    requires forall i :: 0 <= i < |xs| ==> xs[i] < |b|
    requires r < |Placed(b, xs, t)|
    ensures i < |xs| && Placed(b, xs, t)[r] == Pred(|b|, xs[i]) && b[Pred(|b|, xs[i])] == t
    ensures r < |Placed(b, xs[..i], t)| + 1 && r == |Placed(b, xs[..i], t)|
    decreases |xs|
  {
    var n := |xs| - 1;
    var w := Placed(b, xs[..n], t);
    if r < |w| {
      i := PlacedFrom(b, xs[..n], t, r);
      assert xs[..n][..i] == xs[..i];
    } else {
      i := n;
    }
  }

  /** Everything of the list that fits is placed. */
  lemma {:induction false} PlacedIn(b: Block, xs: seq<nat>, t: byte, i: nat)
    requires forall i :: 0 <= i < |xs| ==> xs[i] < |b|
    requires i < |xs| && b[Pred(|b|, xs[i])] == t
    ensures Pred(|b|, xs[i]) in Placed(b, xs, t)
    decreases |xs|
  {
    var n := |xs| - 1;
    if i < n { PlacedIn(b, xs[..n], t, i); }
  }

  lemma {:induction false} PlacedPrefix(b: Block, xs: seq<nat>, t: byte, i: nat)
    requires forall i :: 0 <= i < |xs| ==> xs[i] < |b|
    requires i <= |xs|
    ensures Placed(b, xs[..i], t) <= Placed(b, xs, t)
    decreases |xs|
  {
    if i < |xs| {
      var n := |xs| - 1;
      PlacedPrefix(b, xs[..n], t, i);
      assert xs[..n][..i] == xs[..i];
    } else {
      assert xs[..i] == xs;
    }
  }

  lemma PredWrap(n: nat, x: nat)
    requires x < n
    ensures Wrap(n, Pred(n, x) + 1) == x
  {
  }

  lemma WrapPred(n: nat, k: nat)
    requires k < n
    ensures Pred(n, Wrap(n, k + 1)) == k
  {
  }

  lemma PlacedShorter(b: Block, xs: seq<nat>, t: byte, j: nat, i: nat)
    requires forall i :: 0 <= i < |xs| ==> xs[i] < |b|
    requires j <= i <= |xs|
    ensures |Placed(b, xs[..j], t)| <= |Placed(b, xs[..i], t)|
  {
    PlacedPrefix(b, xs[..i], t, j);
    assert xs[..i][..j] == xs[..j];
  }

  /** What is placed comes from different places of the list in the same order. */
  lemma PlacedPair(b: Block, xs: seq<nat>, t: byte, r: nat, s: nat) returns (i: nat, j: nat)
    requires forall i :: 0 <= i < |xs| ==> xs[i] < |b|
    requires r < s < |Placed(b, xs, t)|
    ensures i < j < |xs| && Placed(b, xs, t)[r] == Pred(|b|, xs[i]) && Placed(b, xs, t)[s] == Pred(|b|, xs[j])
    ensures b[Pred(|b|, xs[i])] == t && b[Pred(|b|, xs[j])] == t
  {
    i := PlacedFrom(b, xs, t, r);
    j := PlacedFrom(b, xs, t, s);
    if j <= i { PlacedShorter(b, xs, t, j, i); }
  }

  /** What is placed from a list in order is in order, each rotation once. */
  lemma PlacedListed(b: Block, rk: seq<nat>, c: byte, left: bool, xs: seq<nat>, t: byte)
    requires Ranks(b, rk) && Listed(b, rk, c, left, xs)
    ensures forall r :: 0 <= r < |Placed(b, xs, t)| ==> Placed(b, xs, t)[r] < |b|
    ensures Distinct(Placed(b, xs, t)) && Ordered(rk, left, Placed(b, xs, t))
  {
    hide Placed, OnSide, Ranks;
    var w := Placed(b, xs, t);
    forall r | 0 <= r < |w| ensures w[r] < |b| { var i := PlacedFrom(b, xs, t, r); }
    forall r, s | 0 <= r < s < |w|
      ensures w[r] != w[s] && InDirection(rk, left, w[r], w[s])
    {
      var i, j := PlacedPair(b, xs, t, r, s);
      PredWrap(|b|, xs[i]);
      PredWrap(|b|, xs[j]);
      OrderOneBack(b, rk, w[r], w[s]);
      OrderOneBack(b, rk, w[s], w[r]);
      assert InDirection(rk, left, xs[i], xs[j]);
    }
  }

  /** Members of the small bucket of t followed by c. */
  lemma PlacedMembers(b: Block, rk: seq<nat>, c: byte, left: bool, xs: seq<nat>, t: byte, r: nat)
    requires Listed(b, rk, c, left, xs) && r < |Placed(b, xs, t)|
    ensures var k := Placed(b, xs, t)[r]; k < |b| && b[k] == t && b[Wrap(|b|, k + 1)] == c && Pair(b, k) == Code(t, c)
    ensures OnSide(b, c, left, Wrap(|b|, Placed(b, xs, t)[r] + 1))
  {
    hide Placed, OnSide;
    var i := PlacedFrom(b, xs, t, r);
    PredWrap(|b|, xs[i]);
    PairIs(b, Pred(|b|, xs[i]));
  }

  function Code(t: byte, c: byte): nat {
    FirstPair(t) + c
  }

  lemma PairIs(b: Block, k: nat)
    requires k < |b|
    ensures Pair(b, k) == Code(b[k], b[Wrap(|b|, k + 1)])
  {
    assert Char(b, k + 1) == b[Wrap(|b|, k + 1)];
  }

  // ---- a scan that feeds itself ----

  /** Rotations that start with c once: the second character is on the side scanned. */
  ghost predicate Once(b: Block, rk: seq<nat>, c: byte, left: bool, base: seq<nat>) {
    && Listed(b, rk, c, left, base)
    && forall i :: 0 <= i < |base| ==>
         var d := b[Wrap(|b|, base[i] + 1)];
         if left then d < c else d > c
  }

  function Found(b: Block, base: seq<nat>, xs: seq<nat>, c: byte): seq<nat>
    requires forall i :: 0 <= i < |xs| ==> xs[i] < |b|
  {
    base + Placed(b, xs, c)
  }

  /** Rotations xs were scanned; what there is to scan are those of base, then those found. */
  ghost predicate Fed(b: Block, rk: seq<nat>, c: byte, left: bool, base: seq<nat>, xs: seq<nat>) {
    && Listed(b, rk, c, left, xs)
    && Listed(b, rk, c, left, Found(b, base, xs, c)) && xs <= Found(b, base, xs, c)
  }

  /** Once c and then a character on the side scanned comes before twice c. */
  lemma OnceFirst(b: Block, rk: seq<nat>, c: byte, left: bool, x: nat, k: nat)
    requires Ranks(b, rk) && x < |b| && k < |b| && b[x] == c && b[k] == c && b[Wrap(|b|, k + 1)] == c
    requires if left then b[Wrap(|b|, x + 1)] < c else b[Wrap(|b|, x + 1)] > c
    ensures x != k && InDirection(rk, left, x, k)
  {
    CharOnCircle(b, x + 1);
    CharOnCircle(b, k + 1);
    assert Cmp(b, x + 2, k + 2, 0) == 0;
    assert Cmp(b, x, k, 2) == Cmp(b, x + 1, k + 1, 1);
    Decided(b, x, k, 2);
    CmpAntisymmetric(b, x, k, |b|);
  }

  lemma FoundListed(b: Block, rk: seq<nat>, c: byte, left: bool, base: seq<nat>, xs: seq<nat>)
    requires Ranks(b, rk) && Once(b, rk, c, left, base) && Listed(b, rk, c, left, xs)
    ensures Listed(b, rk, c, left, Found(b, base, xs, c))
  {
    hide Placed, Ranks, OnSide, InDirection;
    var w := Placed(b, xs, c);
    PlacedListed(b, rk, c, left, xs, c);
    forall r | 0 <= r < |w| ensures b[w[r]] == c && OnSide(b, c, left, w[r]) && b[Wrap(|b|, w[r] + 1)] == c {
      PlacedMembers(b, rk, c, left, xs, c, r);
      SameSide(b, c, left, w[r]);
    }
    forall i, r | 0 <= i < |base| && 0 <= r < |w| ensures base[i] != w[r] && InDirection(rk, left, base[i], w[r]) {
      OnceFirst(b, rk, c, left, base[i], w[r]);
    }
    JoinListed(b, rk, c, left, base, w);
  }

  lemma JoinListed(b: Block, rk: seq<nat>, c: byte, left: bool, u: seq<nat>, w: seq<nat>)
    requires Listed(b, rk, c, left, u) && Listed(b, rk, c, left, w)
    requires forall i, r :: 0 <= i < |u| && 0 <= r < |w| ==> u[i] != w[r] && InDirection(rk, left, u[i], w[r])
    ensures Listed(b, rk, c, left, u + w)
  {
    hide OnSide, InDirection;
  }

  lemma SameSide(b: Block, c: byte, left: bool, k: nat)
    requires k < |b| && b[k] == c
    ensures OnSide(b, c, left, k) == OnSide(b, c, left, Wrap(|b|, k + 1))
  {
    AgainstBack(b, k, c);
  }

  lemma PrefixListed(b: Block, rk: seq<nat>, c: byte, left: bool, xs: seq<nat>, n: nat)
    requires Listed(b, rk, c, left, xs) && n <= |xs|
    ensures Listed(b, rk, c, left, xs[..n])
  {
  }

  lemma FedStart(b: Block, rk: seq<nat>, c: byte, left: bool, base: seq<nat>)
    requires Once(b, rk, c, left, base)
    ensures Fed(b, rk, c, left, base, [])
  {
    assert Found(b, base, [], c) == base;
  }

  /** Scanning the next rotation. */
  lemma FedNext(b: Block, rk: seq<nat>, c: byte, left: bool, base: seq<nat>, xs: seq<nat>)
    requires Ranks(b, rk) && Once(b, rk, c, left, base) && Fed(b, rk, c, left, base, xs)
             && |xs| < |Found(b, base, xs, c)|
    ensures Fed(b, rk, c, left, base, xs + [Found(b, base, xs, c)[|xs|]])
  {
    hide Placed, Ranks, OnSide, InDirection, Distinct, Ordered;
    var all := Found(b, base, xs, c);
    var next := xs + [all[|xs|]];
    assert all[..|next|] == next;
    PrefixListed(b, rk, c, left, all, |next|);
    FoundListed(b, rk, c, left, base, next);
    PlacedNext(b, xs, all[|xs|], c);
    assert all <= Found(b, base, next, c);
  }

  /** A scan at its end has seen every rotation on its side. */
  lemma {:induction false} FedComplete(b: Block, rk: seq<nat>, c: byte, left: bool, base: seq<nat>, xs: seq<nat>,
                                       x: nat, h: nat)
    requires Fed(b, rk, c, left, base, xs) && |xs| == |Found(b, base, xs, c)|
    requires forall y: nat ::
               y < |b| && b[y] == c && (if left then b[Wrap(|b|, y + 1)] < c else b[Wrap(|b|, y + 1)] > c) ==>
               y in base
    requires x < |b| && b[x] == c && (if left then Against(b, x, c, h) < 0 else Against(b, x, c, h) > 0)
    ensures x in xs
    decreases h
  {
    BelowAll(b, rk, c, left, xs);
    hide Placed, Listed;
    var y := Wrap(|b|, x + 1);
    assert xs == Found(b, base, xs, c);
    assert Char(b, x + 1) == b[y];
    if b[y] == c {
      if x + 1 == |b| { AgainstWrap(b, 0, c, h - 1); }
      FedComplete(b, rk, c, left, base, xs, y, h - 1);
      var i :| 0 <= i < |xs| && xs[i] == y;
      WrapPred(|b|, x);
      PlacedIn(b, xs, c, i);
    }
  }

  lemma BelowAll(b: Block, rk: seq<nat>, c: byte, left: bool, xs: seq<nat>)
    requires Listed(b, rk, c, left, xs)
    ensures forall i :: 0 <= i < |xs| ==> xs[i] < |b|
  {
  }
}
