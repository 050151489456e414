/** The small buckets of the main sorter: rotations by their first two characters, found by a
    radix sort that counts pairs. */
module SmallBuckets {
  import opened Rotations
  import opened Permutations
  import opened MainCompare

  function FirstPair(c: byte): nat {
    (c as int) * 256
  }

  /** The two characters at i as one number. */
  function Pair(b: Block, i: nat): (c: nat)
    requires |b| > 0
    ensures c < 0x1_0000
  {
    FirstPair(Char(b, i)) + Char(b, i + 1)
  }

  /** How many of the first k rotations have a smaller pair than c, and how many have c. */
  function Under(b: Block, k: nat, c: int): (r: nat)
    requires |b| > 0
    ensures r <= k
  {
    if k == 0 then 0 else Under(b, k - 1, c) + (if Pair(b, k - 1) < c then 1 else 0)
  }

  function Same(b: Block, k: nat, c: int): (r: nat)
    requires |b| > 0
    ensures r <= k
  {
    if k == 0 then 0 else Same(b, k - 1, c) + (if Pair(b, k - 1) == c then 1 else 0)
  }

  /** Where the small bucket c starts. */
  function Start(b: Block, c: int): (r: nat)
    requires |b| > 0
    ensures r <= |b|
  {
    Under(b, |b|, c)
  }

  lemma {:induction false} UnderNext(b: Block, k: nat, c: int)
    requires |b| > 0
    ensures Under(b, k, c + 1) == Under(b, k, c) + Same(b, k, c)
  {
    if k > 0 { UnderNext(b, k - 1, c); }
  }

  lemma {:induction false} UnderMonotone(b: Block, k: nat, c: int, e: int)
    requires |b| > 0 && c <= e
    ensures Under(b, k, c) <= Under(b, k, e)
  {
    if k > 0 { UnderMonotone(b, k - 1, c, e); }
  }

  lemma {:induction false} UnderBounds(b: Block, k: nat)
    requires |b| > 0
    ensures Under(b, k, 0) == 0 && Under(b, k, 0x1_0000) == k
  {
    if k > 0 { UnderBounds(b, k - 1); }
  }

  lemma {:induction false} SameMonotone(b: Block, i: nat, j: nat, c: int)
    requires |b| > 0 && i <= j
    ensures Same(b, i, c) <= Same(b, j, c)
    ensures i < j && Pair(b, i) == c ==> Same(b, i, c) < Same(b, j, c)
    decreases j - i
  {
    if i < j { SameMonotone(b, i + 1, j, c); }
  }

  /** Where the radix sort puts rotation i: in its bucket, behind the earlier ones. */
  function Slot(b: Block, i: nat): (r: nat)
    requires i < |b|
    ensures Start(b, Pair(b, i)) <= r < Start(b, Pair(b, i) + 1)
  {
    UnderNext(b, |b|, Pair(b, i));
    SameMonotone(b, i, |b|, Pair(b, i));
    Start(b, Pair(b, i)) + Same(b, i, Pair(b, i))
  }

  function Slots(b: Block): (t: seq<nat>)
    ensures |t| == |b| && forall i :: 0 <= i < |b| ==> t[i] == Slot(b, i)
  {
    seq(|b|, i requires 0 <= i < |b| => Slot(b, i))
  }

  lemma SlotsDiffer(b: Block, i: nat, j: nat)
    requires i < j < |b|
    ensures Slot(b, i) != Slot(b, j)
  {
    hide Pair, Under, Same;
    if Pair(b, i) == Pair(b, j) {
      SameMonotone(b, i, j, Pair(b, i));
    } else if Pair(b, i) < Pair(b, j) {
      UnderMonotone(b, |b|, Pair(b, i) + 1, Pair(b, j));
    } else {
      UnderMonotone(b, |b|, Pair(b, j) + 1, Pair(b, i));
    }
  }

  lemma SlotsArePerm(b: Block)
    ensures IsPerm(Slots(b), |b|)
  {
    hide Slot;
    forall i, j | 0 <= i < j < |b|
      ensures Slots(b)[i] != Slots(b)[j]
    {
      SlotsDiffer(b, i, j);
    }
  }

  /** All rotations, each in the small bucket of its first two characters. */
  ghost predicate Grouped(b: Block, p: seq<nat>) {
    && |b| > 0 && IsPerm(p, |b|)
    && forall k {:trigger p[k]} :: 0 <= k < |b| ==> Start(b, Pair(b, p[k])) <= k < Start(b, Pair(b, p[k]) + 1)
  }

  lemma SlotsGroup(b: Block, p: seq<nat>)
    requires |b| > 0 && |p| == |b| && forall i: nat :: i < |b| ==> p[Slot(b, i)] == i
    ensures Grouped(b, p)
  {
    hide Slot, Pair, Under, Same, Start;
    SlotsArePerm(b);
    var t := Slots(b);
    forall k: nat | k < |b|
      ensures p[k] < |b| && Slot(b, p[k]) == k
    {
      var i := PermSurjective(t, |b|, k);
    }
    forall i, j | 0 <= i < j < |b|
      ensures p[i] != p[j]
    {
      assert Slot(b, p[i]) == i && Slot(b, p[j]) == j;
    }
    forall k | 0 <= k < |b|
      ensures Start(b, Pair(b, p[k])) <= k < Start(b, Pair(b, p[k]) + 1)
    {
      assert Slot(b, p[k]) == k;
    }
  }

  /** The bucket of a slot is that of the rotation in it. */
  lemma SlotTells(b: Block, p: seq<nat>, k: nat, c: nat)
    requires Grouped(b, p) && k < |b| && Start(b, c) <= k < Start(b, c + 1)
    ensures Pair(b, p[k]) == c
  {
    hide Pair, Under, Same;
    if Pair(b, p[k]) < c { UnderMonotone(b, |b|, Pair(b, p[k]) + 1, c); }
    if c < Pair(b, p[k]) { UnderMonotone(b, |b|, c + 1, Pair(b, p[k])); }
  }

  // ---- the radix sort ----

  /** The next pair: the old first character becomes the second. */
  function ShiftIn(pair: nat, c: byte): nat {
    pair / 256 + FirstPair(c)
  }

  lemma ShiftInPair(b: Block, i: nat)
    requires i < |b|
    ensures i + 1 < |b| ==> ShiftIn(Pair(b, i + 1), b[i]) == Pair(b, i)
    ensures i + 1 == |b| ==> ShiftIn(FirstPair(b[0]), b[i]) == Pair(b, i)
  {
    assert i + 1 == |b| ==> Char(b, i + 1) == Char(b, 0);
  }

  /** The pair register before rotation i is looked at. */
  ghost predicate Holds(b: Block, i: nat, pair: nat)
    requires |b| > 0 && i <= |b|
  {
    if i < |b| then pair == Pair(b, i) else pair == FirstPair(b[0])
  }

  lemma HoldsNext(b: Block, i: nat, pair: nat)
    requires i < |b| && Holds(b, i + 1, pair)
    ensures ShiftIn(pair, b[i]) == Pair(b, i)
  {
    ShiftInPair(b, i);
  }

  /** Pairs of the rotations from i on are counted. */
  ghost predicate Counted(b: Block, i: nat, ftab: seq<nat>)
    requires |b| > 0
  {
    |ftab| == 0x1_0001 && ftab[0x1_0000] == 0 && forall c: nat :: c < 0x1_0000 ==>
      ftab[c] + Same(b, i, c) == Same(b, |b|, c)
  }

  lemma CountedNext(b: Block, i: nat, ftab: seq<nat>)
    requires i < |b| && Counted(b, i + 1, ftab)
    ensures Counted(b, i, ftab[Pair(b, i) := ftab[Pair(b, i)] + 1])
  {
    hide Pair;
  }

  /** Counts the pairs; clears the quadrants. */
  method CountPairs(block: array<byte>, quadrant: array<nat>, ftab: array<nat>, nblock: nat, ghost b: Block)
    requires 0 < nblock == |b| <= block.Length && block[..nblock] == b && nblock <= quadrant.Length
    requires ftab.Length == 0x1_0001 && ftab != quadrant
    modifies quadrant, ftab
    ensures Counted(b, 0, ftab[..]) && forall i :: 0 <= i < nblock ==> quadrant[i] == 0
  {
    for i := 0 to 0x1_0001
      invariant forall c :: 0 <= c < i ==> ftab[c] == 0
    {
      ftab[i] := 0;
    }
    var j: nat := FirstPair(block[0]);
    assert Counted(b, |b|, ftab[..]);
    assert b[0] == block[0];
    hide Counted, ShiftIn, Pair;
    for i := nblock downto 0
      invariant Counted(b, i, ftab[..]) && Holds(b, i, j)
      invariant forall k :: i <= k < nblock ==> quadrant[k] == 0
    {
      quadrant[i] := 0;
      assert b[i] == block[i];
      HoldsNext(b, i, j);
      j := ShiftIn(j, block[i]);
      CountedNext(b, i, ftab[..]);
      ftab[j] := ftab[j] + 1;
    }
  }

  /** What is left of each bucket when the rotations from i on have been placed. */
  ghost predicate Leaves(b: Block, i: nat, ftab: seq<nat>)
    requires |b| > 0
  {
    |ftab| == 0x1_0001 && ftab[0x1_0000] == |b| && forall c: nat :: c < 0x1_0000 ==>
      ftab[c] == Start(b, c) + Same(b, i, c)
  }

  /** Turns the counts into running sums. */
  method SumUp(ftab: array<nat>, ghost b: Block)
    requires |b| > 0 && Counted(b, 0, ftab[..])
    modifies ftab
    ensures Leaves(b, |b|, ftab[..])
  {
    hide Under, Same;
    UnderBounds(b, |b|);
    UnderNext(b, |b|, 0);
    assert Same(b, 0, 0) == 0 by { SameNone(b); }
    SameNone(b);
    for i := 1 to 0x1_0001
      invariant forall c: nat :: c < i && c < 0x1_0000 ==> ftab[c] == Under(b, |b|, c + 1)
      invariant forall c: nat :: i <= c < 0x1_0000 ==> ftab[c] == Same(b, |b|, c)
      invariant ftab[0x1_0000] == if i <= 0x1_0000 then 0 else |b|
    {
      if i < 0x1_0000 { UnderNext(b, |b|, i); }
      ftab[i] := ftab[i] + ftab[i - 1];
    }
    forall c: nat | c < 0x1_0000 ensures ftab[c] == Start(b, c) + Same(b, |b|, c) { UnderNext(b, |b|, c); }
  }

  lemma SameNone(b: Block)
    requires |b| > 0
    ensures forall c: nat :: Same(b, 0, c) == 0
  {
  }

  lemma LeavesNext(b: Block, i: nat, ftab: seq<nat>)
    requires i < |b| && Leaves(b, i + 1, ftab)
    ensures ftab[Pair(b, i)] == Slot(b, i) + 1 <= |b| && Leaves(b, i, ftab[Pair(b, i) := ftab[Pair(b, i)] - 1])
  {
    hide Pair, Under;
  }

  /** Puts every rotation into its bucket, from the back. */
  method Fill(ptr: array<nat>, block: array<byte>, ftab: array<nat>, nblock: nat, ghost b: Block)
    requires 0 < nblock == |b| == ptr.Length && nblock <= block.Length && block[..nblock] == b
    requires ftab.Length == 0x1_0001 && ftab != ptr && ftab as object != block && ptr as object != block
             && Leaves(b, |b|, ftab[..])
    modifies ptr, ftab
    ensures Leaves(b, 0, ftab[..]) && Grouped(b, ptr[..])
  {
    hide Leaves, ShiftIn, Pair, Slot, Grouped, IsPerm;
    var s: nat := FirstPair(block[0]);
    assert b[0] == block[0];
    for i := nblock downto 0
      invariant Leaves(b, i, ftab[..]) && Holds(b, i, s) && block[..nblock] == b
      invariant forall x: nat :: i <= x < nblock ==> ptr[Slot(b, x)] == x
    {
      assert b[i] == block[i];
      HoldsNext(b, i, s);
      s := ShiftIn(s, block[i]);
      LeavesNext(b, i, ftab[..]);
      forall x: nat | i < x < nblock ensures Slot(b, x) != Slot(b, i) { SlotsDiffer(b, i, x); }
      var j := ftab[s] - 1;
      ftab[s] := j;
      ptr[j] := i;
    }
    SlotsGroup(b, ptr[..]);
  }

  /** Repeats the first characters, and their quadrants, behind the block. */
  method Overshoot(block: array<byte>, quadrant: array<nat>, nblock: nat, ghost b: Block, ghost rk: seq<nat>)
    requires N_OVERSHOOT < nblock == |b| == |rk| && nblock + N_OVERSHOOT <= block.Length && block[..nblock] == b
    requires nblock + N_OVERSHOOT <= quadrant.Length && block as object != quadrant
    requires forall i :: 0 <= i < nblock ==> quadrant[i] == 0
    modifies block, quadrant
    ensures Overshot(b, block[..]) && Quadrants(b, rk, quadrant[..]) && block[..nblock] == b
    ensures forall i :: 0 <= i < nblock + N_OVERSHOOT ==> quadrant[i] == 0
  {
    for i := 0 to N_OVERSHOOT
      invariant block[..nblock] == b
      invariant forall k :: 0 <= k < i ==> block[nblock + k] == b[k]
      invariant forall k :: 0 <= k < nblock + i ==> quadrant[k] == 0
    {
      assert block[..nblock][i] == b[i];
      block[nblock + i] := block[i];
      quadrant[nblock + i] := 0;
    }
    forall i: nat | i < |b| + N_OVERSHOOT
      ensures block[i] == Char(b, i)
    {
      if i < |b| { assert block[..nblock][i] == b[i]; } else { assert block[nblock + (i - nblock)] == b[i - nblock]; }
    }
  }
}
