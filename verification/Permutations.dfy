/** Counting facts about sequences that list positions: an injective listing of n numbers
    below n hits every one of them. */
module Permutations {
  import opened Rotations

  /** The set of the first k entries of p. */
  ghost function First(p: seq<nat>, k: nat): set<nat>
    requires k <= |p|
  {
    set i | 0 <= i < k :: p[i]
  }

  /** All numbers below n. */
  ghost function Below(n: nat): (s: set<nat>)
    ensures forall i: nat :: i in s <==> i < n
  {
    if n == 0 then {} else Below(n - 1) + {n - 1}
  }

  lemma {:induction false} FirstSize(p: seq<nat>, k: nat)
    requires k <= |p|
    requires forall i, j :: 0 <= i < j < |p| ==> p[i] != p[j]
    ensures |First(p, k)| == k
  {
    if k > 0 {
      FirstSize(p, k - 1);
      assert First(p, k) == First(p, k - 1) + {p[k - 1]};
    }
  }

  lemma {:induction false} BelowSize(n: nat)
    ensures |Below(n)| == n
  {
    if n > 0 {
      BelowSize(n - 1);
    }
  }

  lemma SubsetSize(a: set<nat>, b: set<nat>)
    requires a <= b
    ensures |a| <= |b|
    ensures |a| == |b| ==> a == b
  {
    assert b == a + (b - a);
  }

  /** Every number below n occurs in a permutation of 0..n-1. */
  lemma PermSurjective(p: seq<nat>, n: nat, x: nat) returns (m: nat)
    requires IsPerm(p, n) && x < n
    ensures m < n && p[m] == x
  {
    FirstSize(p, n);
    BelowSize(n);
    SubsetSize(First(p, n), Below(n));
    assert x in Below(n);
    m :| m < n && p[m] == x;
  }

  /** Two orders of the rotations of one block, to the same depth, agree position by position
      up to rotations equal to that depth: the half in which p cannot be strictly ahead. */
  lemma OrderNotLess(b: Block, p: seq<nat>, q: seq<nat>, h: nat, j: nat)
    requires IsOrderTo(b, p, h) && IsOrderTo(b, q, h) && j < |b|
    ensures Cmp(b, p[j], q[j], h) >= 0
  {
    if Cmp(b, p[j], q[j], h) < 0 {
      forall x | x in First(p, j + 1)
        ensures x in First(q, j)
      {
        var i :| 0 <= i < j + 1 && p[i] == x;
        if i == j { CmpReflexive(b, p[j], h); }
        assert Cmp(b, x, p[j], h) <= 0;
        var m := PermSurjective(q, |b|, x);
        if m >= j {
          if m == j { CmpReflexive(b, q[j], h); }
          CmpTransitive(b, q[j], x, p[j], h);
          CmpAntisymmetric(b, q[j], p[j], h);
        }
      }
      FirstSize(p, j + 1);
      FirstSize(q, j);
      SubsetSize(First(p, j + 1), First(q, j));
    }
  }

  /** The order of the rotations is unique up to the order among equal rotations. */
  lemma OrderUnique(b: Block, p: seq<nat>, q: seq<nat>, h: nat, j: nat)
    requires IsOrderTo(b, p, h) && IsOrderTo(b, q, h) && j < |b|
    ensures Cmp(b, p[j], q[j], h) == 0
  {
    OrderNotLess(b, p, q, h, j);
    OrderNotLess(b, q, p, h, j);
    CmpAntisymmetric(b, p[j], q[j], h);
  }
}
