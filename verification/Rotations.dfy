/** Cyclic rotations of a block and the order in which the block sorter puts them.

    A rotation is named by the position where it starts.  It is read as the infinite
    periodic string Char(b, i), Char(b, i + 1), ..., and two rotations are compared on
    their first h characters by Cmp. */
module Rotations {

  type byte = x: int | 0 <= x < 256

  type Block = seq<byte>

  /** Character at position i of the block repeated for ever. */
  function Char(b: Block, i: nat): byte
    requires |b| > 0
  {
    if i < |b| then b[i] else Char(b, i - |b|)
  }

  /** Three-way lexicographic comparison of the first h characters of two rotations. */
  function Cmp(b: Block, i: nat, j: nat, h: nat): (r: int)
    requires |b| > 0
    ensures -1 <= r <= 1
    decreases h
  {
    if h == 0 then 0
    else if Char(b, i) < Char(b, j) then -1
    else if Char(b, i) > Char(b, j) then 1
    else Cmp(b, i + 1, j + 1, h - 1)
  }

  lemma {:induction false} CmpAntisymmetric(b: Block, i: nat, j: nat, h: nat)
    requires |b| > 0
    ensures Cmp(b, i, j, h) == -Cmp(b, j, i, h)
    decreases h
  {
    if h > 0 { CmpAntisymmetric(b, i + 1, j + 1, h - 1); }
  }

  lemma {:induction false} CmpTransitive(b: Block, i: nat, j: nat, k: nat, h: nat)
    requires |b| > 0
    requires Cmp(b, i, j, h) <= 0 && Cmp(b, j, k, h) <= 0
    ensures Cmp(b, i, k, h) <= 0
    ensures Cmp(b, i, k, h) == 0 <==> Cmp(b, i, j, h) == 0 && Cmp(b, j, k, h) == 0
    decreases h
  {
    if h > 0 && Char(b, i) == Char(b, j) == Char(b, k) {
      CmpTransitive(b, i + 1, j + 1, k + 1, h - 1);
    }
  }

  /** Rotations equal to h characters are interchangeable at depth h. */
  lemma {:induction false} CmpEqualLeft(b: Block, i: nat, j: nat, k: nat, h: nat)
    requires |b| > 0
    requires Cmp(b, i, j, h) == 0
    ensures Cmp(b, i, k, h) == Cmp(b, j, k, h)
    ensures Cmp(b, k, i, h) == Cmp(b, k, j, h)
    decreases h
  {
    if h > 0 { CmpEqualLeft(b, i + 1, j + 1, k + 1, h - 1); }
  }

  /** Comparing on g + h characters is comparing on g, then on the next h. */
  lemma {:induction false} CmpSplit(b: Block, i: nat, j: nat, g: nat, h: nat)
    requires |b| > 0
    ensures Cmp(b, i, j, g + h) ==
            if Cmp(b, i, j, g) != 0 then Cmp(b, i, j, g) else Cmp(b, i + g, j + g, h)
    decreases g
  {
    if g > 0 { CmpSplit(b, i + 1, j + 1, g - 1, h); }
  }

  /** Starting one whole block later changes nothing. */
  lemma {:induction false} CmpWrap(b: Block, i: nat, j: nat, h: nat)
    requires |b| > 0
    ensures Cmp(b, i + |b|, j, h) == Cmp(b, i, j, h)
    ensures Cmp(b, i, j + |b|, h) == Cmp(b, i, j, h)
    decreases h
  {
    if h > 0 {
      CmpWrap(b, i + 1, j + 1, h - 1);
      assert i + 1 + |b| == i + |b| + 1 && j + 1 + |b| == j + |b| + 1;
    }
  }

  lemma {:induction false} CmpReflexive(b: Block, i: nat, h: nat)
    requires |b| > 0
    ensures Cmp(b, i, i, h) == 0
    decreases h
  {
    if h > 0 { CmpReflexive(b, i + 1, h - 1); }
  }

  /** A comparison decided within |b| characters is final, and equality on |b| characters
      is equality for ever: n characters are as good as infinitely many. */
  lemma {:induction false} CmpSaturates(b: Block, i: nat, j: nat, h: nat)
    requires |b| > 0
    requires Cmp(b, i, j, |b|) == 0
    ensures Cmp(b, i, j, h) == 0
    decreases h
  {
    if h <= |b| {
      CmpSplit(b, i, j, h, |b| - h);
    } else {
      CmpSplit(b, i, j, |b|, h - |b|);
      CmpWrap(b, i, j + |b|, h - |b|);
      CmpWrap(b, i, j, h - |b|);
      CmpSaturates(b, i, j, h - |b|);
    }
  }

  /** Depth |b| and every greater depth give the same answer. */
  lemma CmpBeyond(b: Block, i: nat, j: nat, h: nat)
    requires |b| > 0 && h >= |b|
    ensures Cmp(b, i, j, h) == Cmp(b, i, j, |b|)
  {
    CmpSplit(b, i, j, |b|, h - |b|);
    if Cmp(b, i, j, |b|) == 0 { CmpSaturates(b, i, j, h); }
  }

  /** The previous position on the circle of n positions. */
  function Pred(n: nat, i: nat): (p: nat)
    requires i < n
    ensures p < n
  {
    if i == 0 then n - 1 else i - 1
  }

  /** p lists every position below n exactly once. */
  ghost predicate IsPerm(p: seq<nat>, n: nat) {
    && |p| == n
    && (forall i :: 0 <= i < n ==> p[i] < n)
    && (forall i, j :: 0 <= i < j < n ==> p[i] != p[j])
  }

  /** p lists the rotations in non-decreasing order of their first h characters. */
  ghost predicate SortedTo(b: Block, p: seq<nat>, h: nat)
    requires |b| > 0
  {
    forall i, j :: 0 <= i < j < |p| ==> Cmp(b, p[i], p[j], h) <= 0
  }

  /** All rotations, in non-decreasing order of their first h characters. */
  ghost predicate IsOrderTo(b: Block, p: seq<nat>, h: nat) {
    |b| > 0 && IsPerm(p, |b|) && SortedTo(b, p, h)
  }

  /** What the block sorter must deliver: all rotations, in non-decreasing order. */
  ghost predicate IsRotationOrder(b: Block, p: seq<nat>) {
    IsOrderTo(b, p, |b|)
  }
}
