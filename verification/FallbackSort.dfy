/** The doubling sort of all rotations of a block: an initial one-byte radix sort, passes
    that double the number of sorted characters, and the rebuilding of the block whose
    storage the class numbers have overwritten. */
module FallbackSort {
  import opened Rotations
  import opened Permutations
  import opened BurrowsWheeler
  import opened Rearrange
  import opened Buckets
  import opened HeaderBits
  import FallbackQSort

  // ---- the initial radix sort ----

  /** Where the radix sort puts position i: buckets fill from their ends. */
  function Slot(b: Block, i: nat): (r: nat)
    requires i < |b|
    ensures Less(b, |b|, b[i]) <= r < Less(b, |b|, b[i] as int + 1) <= |b|
  {
    RankInRange(b, i);
    LessNext(b, |b|, b[i]);
    Less(b, |b|, b[i] as int + 1) - Occ(b, i, b[i]) - 1
  }

  function Slots(b: Block): (t: seq<nat>)
    ensures |t| == |b| && forall i :: 0 <= i < |b| ==> t[i] == Slot(b, i)
  {
    seq(|b|, i requires 0 <= i < |b| => Slot(b, i))
  }

  lemma SlotsDiffer(b: Block, i: nat, j: nat)
    requires i < j < |b|
    ensures Slot(b, i) != Slot(b, j)
  {
    if b[i] == b[j] {
      OccMonotone(b, i, j, b[i]);
    } else if b[i] < b[j] {
      LessMonotone(b, |b|, b[i] as int + 1, b[j]);
    } else {
      LessMonotone(b, |b|, b[j] as int + 1, b[i]);
    }
  }

  lemma SlotsArePerm(b: Block)
    ensures IsPerm(Slots(b), |b|)
  {
    hide Slot;
    forall i, j | 0 <= i < j < |b|
      ensures Slots(b)[i] != Slots(b)[j]
    {
      SlotsDiffer(b, i, j);
    }
  }

  /** The inverse of a permutation is one. */
  lemma InverseIsPerm(t: seq<nat>, f: seq<nat>, n: nat)
    requires IsPerm(t, n) && |f| == n && forall i :: 0 <= i < n ==> f[t[i]] == i
    ensures IsPerm(f, n)
    ensures forall k :: 0 <= k < n ==> f[k] < n && t[f[k]] == k
  {
    forall k | 0 <= k < n ensures f[k] < n && t[f[k]] == k {
      var i := PermSurjective(t, n, k);
    }
  }

  /** Every row lies in the bucket of the first byte of its rotation. */
  ghost predicate ByFirstByte(b: Block, p: seq<nat>) {
    && |p| == |b|
    && forall k {:trigger p[k]} :: 0 <= k < |b| ==>
         p[k] < |b| && Less(b, |b|, b[p[k]]) <= k < Less(b, |b|, b[p[k]] as int + 1)
  }

  lemma SlotsByFirstByte(b: Block, f: seq<nat>)
    requires |f| == |b| && forall i :: 0 <= i < |b| ==> f[Slot(b, i)] == i
    ensures IsPerm(f, |b|) && ByFirstByte(b, f)
  {
    SlotsArePerm(b);
    var t := Slots(b);
    assert forall i :: 0 <= i < |b| ==> f[t[i]] == i;
    InverseIsPerm(t, f, |b|);
    forall k | 0 <= k < |b|
      ensures f[k] < |b| && Less(b, |b|, b[f[k]]) <= k < Less(b, |b|, b[f[k]] as int + 1)
    {
      assert Slot(b, f[k]) == k;
    }
  }

  /** Counts the bytes of the block: plain counts in ftabCopy, running sums in ftab. */
  method CountBytes(block: array<byte>) returns (ftab: array<nat>, ftabCopy: array<nat>)
    ensures fresh(ftab) && fresh(ftabCopy) && ftab != ftabCopy && ftab.Length == 257 && ftabCopy.Length == 256
    ensures forall c :: 0 <= c < 256 ==> ftabCopy[c] == Occ(block[..], block.Length, c)
    ensures forall c :: 0 <= c < 256 ==> ftab[c] == Less(block[..], block.Length, c + 1)
  {
    ghost var b := block[..];
    ftab := new nat[257];
    ftabCopy := new nat[256];
    for i := 0 to 257
      modifies ftab
      invariant forall c :: 0 <= c < i ==> ftab[c] == 0
    {
      ftab[i] := 0;
    }
    for i := 0 to block.Length
      modifies ftab
      invariant forall c :: 0 <= c < 256 ==> ftab[c] == Occ(b, i, c)
      invariant ftab[256] == 0
    {
      ftab[block[i]] := ftab[block[i]] + 1;
    }
    for i := 0 to 256
      modifies ftabCopy
      invariant forall c :: 0 <= c < i ==> ftabCopy[c] == ftab[c]
    {
      ftabCopy[i] := ftab[i];
    }
    RunningSums(ftab, b);
  }

  method RunningSums(ftab: array<nat>, ghost b: Block)
    requires ftab.Length == 257
    requires forall c :: 0 <= c < 256 ==> ftab[c] == Occ(b, |b|, c)
    modifies ftab
    ensures forall c :: 0 <= c < 256 ==> ftab[c] == Less(b, |b|, c + 1)
  {
    LessBounds(b, |b|);
    LessNext(b, |b|, 0);
    for i := 1 to 257
      invariant forall c :: 0 <= c < i && c < 256 ==> ftab[c] == Less(b, |b|, c + 1)
      invariant forall c :: i <= c < 256 ==> ftab[c] == Occ(b, |b|, c)
    {
      LessNext(b, |b|, i);
      ftab[i] := ftab[i] + ftab[i - 1];
    }
  }

  /** What is left of each bucket after i positions have been placed. */
  ghost predicate Remaining(b: Block, i: nat, ftab: seq<nat>) {
    && i <= |b| && |ftab| == 257
    && forall c :: 0 <= c < 256 ==> ftab[c] + Occ(b, i, c) == Less(b, |b|, c + 1)
  }

  lemma RemainingNext(b: Block, i: nat, ftab: seq<nat>)
    requires Remaining(b, i, ftab) && i < |b|
    ensures |ftab| == 257 && ftab[b[i]] == Slot(b, i) + 1
    ensures Remaining(b, i + 1, ftab[b[i] := Slot(b, i)])
  {
  }

  lemma RemainingEnd(b: Block, ftab: seq<nat>)
    requires Remaining(b, |b|, ftab)
    ensures |ftab| == 257 && forall c :: 0 <= c < 256 ==> ftab[c] == Less(b, |b|, c)
  {
    forall c | 0 <= c < 256 ensures ftab[c] == Less(b, |b|, c) { LessNext(b, |b|, c); }
  }

  /** Places every position in the bucket of its byte and leaves the bucket starts in ftab. */
  method Distribute(block: array<byte>, fmap: array<nat>, ftab: array<nat>)
    requires fmap.Length == block.Length && ftab.Length == 257 && fmap != ftab
    requires forall c :: 0 <= c < 256 ==> ftab[c] == Less(block[..], block.Length, c + 1)
    modifies fmap, ftab
    ensures IsPerm(fmap[..], block.Length) && ByFirstByte(block[..], fmap[..])
    ensures forall c :: 0 <= c < 256 ==> ftab[c] == Less(block[..], block.Length, c)
  {
    hide Slot, Remaining;
    ghost var b := block[..];
    ghost var t := Slots(b);
    SlotsArePerm(b);
    RemainingStart(b, ftab[..]);
    for i := 0 to block.Length
      invariant Remaining(b, i, ftab[..])
      invariant forall k :: 0 <= k < i ==> fmap[t[k]] == k
    {
      RemainingNext(b, i, ftab[..]);
      var j := block[i];
      var k := ftab[j] - 1;
      ftab[j] := k;
      fmap[k] := i;
    }
    RemainingEnd(b, ftab[..]);
    SlotsByFirstByte(b, fmap[..]);
  }

  lemma RemainingStart(b: Block, ftab: seq<nat>)
    requires |ftab| == 257 && forall c :: 0 <= c < 256 ==> ftab[c] == Less(b, |b|, c + 1)
    ensures Remaining(b, 0, ftab)
  {
  }

  // ---- the header bits ----

  /** The set bits below n are exactly the bucket starts of the bytes. */
  ghost predicate HeadsAreStarts(b: Block, heads: seq<bool>) {
    && |heads| > |b| + 1 && heads[|b|] && !heads[|b| + 1]
    && (forall c {:trigger Less(b, |b|, c)} :: 0 <= c < 256 && Less(b, |b|, c) < |b| ==> heads[Less(b, |b|, c)])
    && forall k {:trigger heads[k]} :: 0 <= k < |b| && heads[k] ==> exists c :: 0 <= c < 256 && Less(b, |b|, c) == k
  }

  lemma HeadAtStart(b: Block, p: seq<nat>, heads: seq<bool>, i: nat)
    requires IsPerm(p, |b|) && ByFirstByte(b, p) && HeadsAreStarts(b, heads) && 0 < i < |b|
    ensures HeadAt(b, p, heads, i, 1)
  {
    var x, y := b[p[i - 1]] as int, b[p[i]] as int;
    assert Cmp(b, p[i - 1], p[i], 1) == if x < y then -1 else if x > y then 1 else 0;
    if y < x { LessMonotone(b, |b|, y + 1, x); }
    if x < y { LessMonotone(b, |b|, x + 1, y); }
    if heads[i] {
      var c :| 0 <= c < 256 && Less(b, |b|, c) == i;
      if c <= x { LessMonotone(b, |b|, c, x); }
      if y < c { LessMonotone(b, |b|, y + 1, c); }
    }
  }

  lemma InitiallyRefined(b: Block, p: seq<nat>, heads: seq<bool>)
    requires |b| > 0 && IsPerm(p, |b|) && ByFirstByte(b, p) && HeadsAreStarts(b, heads)
    ensures Refined(b, p, heads, 1, 0)
  {
    hide HeadAt;
    LessBounds(b, |b|);
    assert Less(b, |b|, 0) == 0;
    forall i | 0 < i < |b|
      ensures HeadAt(b, p, heads, i, DepthAt(1, 0, i))
    {
      HeadAtStart(b, p, heads, i);
    }
  }

  /** Sets a bit at every bucket start and the alternating sentinel bits past the end. */
  method MarkStarts(bh: BitTable, ftab: array<nat>, nblock: nat, ghost b: Block)
    requires bh.Valid() && nblock == |b| > 0 && |bh.bits| >= nblock + 64
    requires ftab.Length == 257 && ftab as object != bh.words
    requires forall c :: 0 <= c < 256 ==> ftab[c] == Less(b, |b|, c)
    requires forall k :: 0 <= k < nblock ==> !bh.bits[k]
    modifies bh, bh.words
    ensures bh.Valid() && |bh.bits| == old(|bh.bits|) && HeadsAreStarts(b, bh.bits)
  {
    hide Spells;
    ghost var starts := seq(256, c requires 0 <= c < 256 => Less(b, |b|, c));
    for i := 0 to 256
      invariant bh.Valid() && |bh.bits| == old(|bh.bits|)
      invariant forall c :: 0 <= c < i ==> bh.bits[starts[c]]
      invariant forall k :: 0 <= k < nblock && bh.bits[k] ==> exists c :: 0 <= c < i && starts[c] == k
    {
      assert ftab[i] == starts[i];
      bh.Set(ftab[i]);
    }
    for i := 0 to 32
      invariant bh.Valid() && |bh.bits| == old(|bh.bits|)
      invariant forall c :: 0 <= c < 256 && starts[c] < nblock ==> bh.bits[starts[c]]
      invariant forall k :: 0 <= k < nblock && bh.bits[k] ==> exists c :: 0 <= c < 256 && starts[c] == k
      invariant i > 0 ==> bh.bits[nblock] && !bh.bits[nblock + 1]
    {
      bh.Set(nblock + 2 * i);
      bh.Clear(nblock + 2 * i + 1);
    }
    StartsGiveHeads(b, bh.bits, starts);
  }

  lemma StartsGiveHeads(b: Block, heads: seq<bool>, starts: seq<nat>)
    requires |heads| > |b| + 1 && heads[|b|] && !heads[|b| + 1]
    requires |starts| == 256 && forall c :: 0 <= c < 256 ==> starts[c] == Less(b, |b|, c)
    requires forall c :: 0 <= c < 256 && starts[c] < |b| ==> heads[starts[c]]
    requires forall k :: 0 <= k < |b| && heads[k] ==> exists c :: 0 <= c < 256 && starts[c] == k
    ensures HeadsAreStarts(b, heads)
  {
    forall c | 0 <= c < 256 && Less(b, |b|, c) < |b|
      ensures heads[Less(b, |b|, c)]
    {
      assert heads[starts[c]];
    }
    forall k | 0 <= k < |b| && heads[k]
      ensures exists c :: 0 <= c < 256 && Less(b, |b|, c) == k
    {
      var c :| 0 <= c < 256 && starts[c] == k;
      assert Less(b, |b|, c) == k;
    }
  }

  // ---- one pass of the doubling ----

  /** Gives every rotation the header number of the rotation H places further on. */
  method AssignClasses(fmap: array<nat>, eclass: array<nat>, bh: BitTable, H: nat, ghost b: Block)
    requires bh.Valid() && Refined(b, fmap[..], bh.bits, H, 0) && 0 < H <= |b|
    requires fmap.Length == eclass.Length == |b| && fmap != eclass && eclass as object != bh.words
    modifies eclass
    ensures OrdersNext(b, eclass[..], H)
  {
    hide HeadAt, Spells, Cmp, Back, HeaderOf, OrdersNext, IsPerm, Classed;
    ghost var p, heads := fmap[..], bh.bits;
    var nblock := fmap.Length;
    var j := 0;
    assert Classed(p, heads, H, eclass[..], 0) by { NoneClassed(p, heads, H, eclass[..]); }
    for i := 0 to nblock
      invariant j == if i == 0 then 0 else HeaderOf(heads, i - 1)
      invariant Classed(p, heads, H, eclass[..], i)
    {
      OneClassed(p, heads, H, eclass[..], i);
      var isHead := bh.IsSet(i);
      if isHead { j := i; }
      var k := if fmap[i] >= H then fmap[i] - H else fmap[i] - H + nblock;
      eclass[k] := j;
    }
    AllClassed(p, heads, H, eclass[..]);
    ClassesOrderNext(b, p, heads, H, eclass[..]);
  }

  /** The rotations H places before the first i rows have their classes. */
  ghost predicate Classed(p: seq<nat>, heads: seq<bool>, H: nat, ec: seq<nat>, i: nat) {
    && |ec| == |p| < |heads| && H <= |p| && IsPerm(p, |p|) && i <= |p|
    && forall k :: 0 <= k < i ==> ec[Back(|p|, p[k], H)] == HeaderOf(heads, k)
  }

  lemma NoneClassed(p: seq<nat>, heads: seq<bool>, H: nat, ec: seq<nat>)
    requires |ec| == |p| < |heads| && H <= |p| && IsPerm(p, |p|)
    ensures Classed(p, heads, H, ec, 0)
  {
  }

  lemma OneClassed(p: seq<nat>, heads: seq<bool>, H: nat, ec: seq<nat>, i: nat)
    requires Classed(p, heads, H, ec, i) && i < |p| && H > 0
    ensures p[i] < |p| && Back(|p|, p[i], H) == (if p[i] >= H then p[i] - H else p[i] - H + |p|) < |ec|
    ensures HeaderOf(heads, i) == if heads[i] || i == 0 then i else HeaderOf(heads, i - 1)
    ensures Classed(p, heads, H, ec[Back(|p|, p[i], H) := HeaderOf(heads, i)], i + 1)
  {
    hide HeaderOf;
    HeaderNext(heads, i);
    var ec1 := ec[Back(|p|, p[i], H) := HeaderOf(heads, i)];
    forall k | 0 <= k < i + 1 ensures ec1[Back(|p|, p[k], H)] == HeaderOf(heads, k) {
      if k < i { assert p[k] != p[i]; }
    }
  }

  lemma HeaderNext(heads: seq<bool>, i: nat)
    requires i < |heads|
    ensures HeaderOf(heads, i) == if heads[i] || i == 0 then i else HeaderOf(heads, i - 1)
  {
  }

  lemma AllClassed(p: seq<nat>, heads: seq<bool>, H: nat, ec: seq<nat>)
    requires Classed(p, heads, H, ec, |p|)
    ensures |ec| == |p| < |heads| && H <= |p| && forall i :: 0 <= i < |p| ==> p[i] < |p|
    ensures forall i :: 0 <= i < |p| ==> ec[Back(|p|, p[i], H)] == HeaderOf(heads, i)
  {
    hide HeaderOf;
  }

  /** Sets a bit wherever the class changes within the sorted bucket. */
  method MarkChanges(fmap: array<nat>, ec: seq<nat>, bh: BitTable, l: nat, r: nat)
    requires bh.Valid() && l < r < fmap.Length && r + 1 < |bh.bits|
    requires Indexed(fmap[..], ec) && fmap as object != bh.words
    requires bh.bits[l] && forall i :: l < i <= r ==> !bh.bits[i]
    modifies bh, bh.words
    ensures bh.Valid() && Remarked(fmap[..], ec, old(bh.bits), bh.bits, l, r)
  {
    hide Spells;
    ghost var heads := bh.bits;
    var cc: int := -1;
    var i := l;
    while i <= r
      invariant l <= i <= r + 1 && bh.Valid() && |bh.bits| == |heads|
      invariant cc == if i == l then -1 else ec[fmap[i - 1]]
      invariant forall k :: 0 <= k < |heads| && !(l < k < i) ==> bh.bits[k] == heads[k]
      invariant forall k :: l < k < i ==> (bh.bits[k] <==> ec[fmap[k - 1]] != ec[fmap[k]])
    {
      var cc1 := ec[fmap[i]];
      if cc != cc1 {
        bh.Set(i);
        cc := cc1;
      }
      i := i + 1;
    }
  }

  /** Sorts one bucket by class and marks the new buckets inside it. */
  method SortBucket(fmap: array<nat>, eclass: array<nat>, bh: BitTable, l: nat, r: nat, H: nat, ghost b: Block)
    requires bh.Valid() && fmap.Length == eclass.Length == |b| <= 900000
    requires fmap as object != bh.words && eclass as object != bh.words
    requires OrdersNext(b, eclass[..], H)
    requires Refined(b, fmap[..], bh.bits, H, l) && IsBucket(|b|, bh.bits, l, r) && l < r
    requires fmap != eclass
    modifies fmap, bh, bh.words
    ensures bh.Valid() && eclass[..] == old(eclass[..])
    ensures Refined(b, fmap[..], bh.bits, H, r + 1) && bh.bits[r + 1]
    ensures |bh.bits| == old(|bh.bits|)
  {
    hide Spells, OrdersNext, HeadAt, Rearranged, SortedBetween, Remarked;
    ghost var p, heads := fmap[..], bh.bits;
    var ec := eclass[..];
    OrdersNextSize(b, ec, H);
    FallbackQSort.QSort3(fmap, ec, l, r);
    MarkChanges(fmap, ec, bh, l, r);
    RefineBucket(b, p, fmap[..], heads, bh.bits, ec, H, l, r);
    RemarkedOutside(fmap[..], ec, heads, bh.bits, l, r);
  }

  lemma RemarkedOutside(p: seq<nat>, ec: seq<nat>, heads: seq<bool>, newHeads: seq<bool>, l: nat, r: nat)
    requires Indexed(p, ec) && Remarked(p, ec, heads, newHeads, l, r) && r + 1 < |heads|
    ensures |newHeads| == |heads| && newHeads[r + 1] == heads[r + 1]
  {
  }

  lemma OrdersNextSize(b: Block, ec: seq<nat>, H: nat)
    requires OrdersNext(b, ec, H)
    ensures |ec| == |b|
  {
  }

  /** One pass: every bucket of several rotations is sorted by what follows H characters
      further on.  Returns how many rotations were in such buckets. */
  method Pass(fmap: array<nat>, eclass: array<nat>, bh: BitTable, H: nat, ghost b: Block) returns (nNotDone: nat)
    requires bh.Valid() && fmap.Length == eclass.Length == |b| <= 900000
    requires fmap as object != bh.words && eclass as object != bh.words && fmap != eclass
    requires OrdersNext(b, eclass[..], H) && Refined(b, fmap[..], bh.bits, H, 0)
    modifies fmap, bh, bh.words
    ensures bh.Valid() && |bh.bits| == old(|bh.bits|)
    ensures Refined(b, fmap[..], bh.bits, H, |b|)
    ensures nNotDone == 0 ==> forall i :: 0 < i < |b| ==> bh.bits[i]
  {
    hide Spells, OrdersNext, HeadAt;
    var nblock := fmap.Length;
    nNotDone := 0;
    var next := 0;
    while true
      invariant bh.Valid() && next <= nblock && eclass[..] == old(eclass[..])
      invariant |bh.bits| == old(|bh.bits|)
      invariant Refined(b, fmap[..], bh.bits, H, next) && bh.bits[next]
      invariant nNotDone == 0 ==> forall i :: 0 < i < next ==> bh.bits[i]
      decreases nblock - next
    {
      var k := bh.Skip(next, true, nblock + 1);
      var l := k - 1;
      if l >= nblock {
        SkipSingles(b, fmap[..], bh.bits, H, next, nblock);
        break;
      }
      SkipSingles(b, fmap[..], bh.bits, H, next, l);
      k := bh.Skip(k, false, nblock);
      var r := k - 1;
      nNotDone := nNotDone + (r - l + 1);
      SortBucket(fmap, eclass, bh, l, r, H, b);
      next := r + 1;
    }
  }

  // ---- rebuilding the block ----

  /** How many of bucket c's rows are still to come from row i on. */
  function LeftOver(b: Block, i: nat, c: nat): nat
  {
    var lo, hi := Less(b, |b|, c), Less(b, |b|, c + 1);
    if i >= hi then 0 else if i <= lo then (if lo <= hi then hi - lo else 0) else hi - i
  }

  lemma LeftOverStart(b: Block, c: nat)
    ensures LeftOver(b, 0, c) == Occ(b, |b|, c)
  {
    LessNext(b, |b|, c);
  }

  /** The first byte value with rows left over is the byte of the next row. */
  lemma NextByte(b: Block, p: seq<nat>, i: nat, j: nat)
    requires ByFirstByte(b, p) && i < |b|
    requires forall c: nat :: c < j ==> LeftOver(b, i, c) == 0
    requires j <= b[p[i]]
    ensures LeftOver(b, i, j) != 0 ==> j == b[p[i]]
    ensures j == b[p[i]] ==> LeftOver(b, i, j) != 0
  {
    if j < b[p[i]] { LessMonotone(b, |b|, j + 1, b[p[i]]); }
  }

  lemma LeftOverNext(b: Block, p: seq<nat>, i: nat)
    requires ByFirstByte(b, p) && i < |b|
    ensures LeftOver(b, i + 1, b[p[i]]) == LeftOver(b, i, b[p[i]]) - 1
    ensures forall c: nat :: c < 256 && c != b[p[i]] ==> LeftOver(b, i + 1, c) == LeftOver(b, i, c)
  {
    forall c: nat | c < 256 && c != b[p[i]]
      ensures LeftOver(b, i + 1, c) == LeftOver(b, i, c)
    {
      if c < b[p[i]] {
        LessMonotone(b, |b|, c + 1, b[p[i]]);
      } else {
        LessMonotone(b, |b|, b[p[i]] as int + 1, c);
      }
      LessMonotone(b, |b|, c, c + 1);
    }
  }

  lemma BytesAscend(b: Block, p: seq<nat>, i: nat)
    requires ByFirstByte(b, p) && i + 1 < |b|
    ensures b[p[i]] <= b[p[i + 1]]
  {
    if b[p[i + 1]] < b[p[i]] { LessMonotone(b, |b|, b[p[i + 1]] as int + 1, b[p[i]]); }
  }

  /** Writes the block afresh from the sorted rows and the saved byte counts alone: whatever
      the storage holds on entry does not matter. */
  method RebuildBlock(block: array<byte>, fmap: array<nat>, ftabCopy: array<nat>, ghost b: Block)
    requires block.Length == fmap.Length == |b| > 0 && ftabCopy.Length == 256
    requires fmap != ftabCopy && block as object != fmap && block as object != ftabCopy
    requires IsPerm(fmap[..], |b|) && ByFirstByte(b, fmap[..])
    requires forall c :: 0 <= c < 256 ==> ftabCopy[c] == Occ(b, |b|, c)
    modifies block, ftabCopy
    ensures block[..] == b
  {
    hide LeftOver, ByFirstByte, IsPerm;
    ghost var p := fmap[..];
    PermBounds(b, p);
    forall c | 0 <= c < 256 ensures ftabCopy[c] == LeftOver(b, 0, c) { LeftOverStart(b, c); }
    var j := 0;
    for i := 0 to fmap.Length
      invariant fmap[..] == p
      invariant forall c: nat :: c < 256 ==> ftabCopy[c] == LeftOver(b, i, c)
      invariant forall c: nat :: c < j ==> LeftOver(b, i, c) == 0
      invariant j < 256 && (i < |b| ==> j <= b[p[i]])
      invariant forall k :: 0 <= k < i ==> block[p[k]] == b[p[k]]
    {
      NextByte(b, p, i, j);
      while ftabCopy[j] == 0
        modifies {}
        invariant forall c: nat :: c < j ==> LeftOver(b, i, c) == 0
        invariant j <= b[p[i]]
        invariant LeftOver(b, i, j) != 0 ==> j == b[p[i]]
        invariant j == b[p[i]] ==> LeftOver(b, i, j) != 0
        decreases 256 - j
      {
        j := j + 1;
        NextByte(b, p, i, j);
      }
      LeftOverNext(b, p, i);
      PermDiffers(b, p, i);
      if i + 1 < |b| { BytesAscend(b, p, i); }
      ftabCopy[j] := ftabCopy[j] - 1;
      block[fmap[i]] := j;
    }
    assert j < 256;
    RebuiltEverywhere(b, p, block[..]);
  }

  lemma PermBounds(b: Block, p: seq<nat>)
    requires IsPerm(p, |b|)
    ensures |p| == |b| && forall k :: 0 <= k < |b| ==> p[k] < |b|
  {
  }

  lemma PermDiffers(b: Block, p: seq<nat>, i: nat)
    requires IsPerm(p, |b|) && i < |b|
    ensures forall k :: 0 <= k < i ==> p[k] != p[i]
  {
  }

  lemma RebuiltEverywhere(b: Block, p: seq<nat>, block: seq<byte>)
    requires IsPerm(p, |b|) && |block| == |b|
    requires forall k :: 0 <= k < |b| ==> block[p[k]] == b[p[k]]
    ensures block == b
  {
    forall x | 0 <= x < |b| ensures block[x] == b[x] {
      var k := PermSurjective(p, |b|, x);
    }
  }

  // ---- the whole sort ----

  /** The class numbers share their storage with the block: afterwards byte i of the block is
      byte i % 4 of class number i / 4. */
  method OverwriteBlock(eclass: array<nat>, block: array<byte>)
    requires block.Length == eclass.Length && eclass as object != block
    modifies block
  {
    for i := 0 to block.Length {
      var w := eclass[i / 4];
      block[i] := (if i % 4 == 0 then w else if i % 4 == 1 then w / 0x100
                   else if i % 4 == 2 then w / 0x1_0000 else w / 0x100_0000) % 256;
    }
  }

  /** The passes, at depths 1, 2, 4, ..., until every bucket is a single rotation or the depth
      exceeds the block length. */
  method Refine(block: array<byte>, fmap: array<nat>, eclass: array<nat>, bh: BitTable, ghost b: Block)
    requires bh.Valid() && block.Length == fmap.Length == eclass.Length == |b| <= 900000
    requires fmap as object != bh.words && eclass as object != bh.words && block as object != bh.words
    requires fmap != eclass && block as object != fmap && block as object != eclass
    requires Refined(b, fmap[..], bh.bits, 1, 0)
    modifies block, fmap, eclass, bh, bh.words
    ensures IsRotationOrder(b, fmap[..])
  {
    hide Spells, OrdersNext, HeadAt, IsRotationOrder;
    var nblock := fmap.Length;
    var H := 1;
    while true
      invariant bh.Valid() && 0 < H <= nblock
      invariant Refined(b, fmap[..], bh.bits, H, 0)
      decreases nblock - H
    {
      AssignClasses(fmap, eclass, bh, H, b);
      OverwriteBlock(eclass, block);
      var nNotDone := Pass(fmap, eclass, bh, H, b);
      NextDepth(b, fmap[..], bh.bits, H);
      H := H * 2;
      if H > nblock || nNotDone == 0 {
        RefinedIsSorted(b, fmap[..], bh.bits, H);
        break;
      }
    }
  }

  lemma FirstBytesKept(b: Block, p: seq<nat>, q: seq<nat>)
    requires IsPerm(p, |b|) && ByFirstByte(b, p) && IsRotationOrder(b, q)
    ensures ByFirstByte(b, q)
  {
    ByFirstByteSorted(b, p);
    forall i, j | 0 <= i < j < |b| ensures Cmp(b, q[i], q[j], 1) <= 0 {
      CmpSplit(b, q[i], q[j], 1, |b| - 1);
    }
    forall k | 0 <= k < |b|
      ensures q[k] < |b| && Less(b, |b|, b[q[k]]) <= k < Less(b, |b|, b[q[k]] as int + 1)
    {
      OrderUnique(b, p, q, 1, k);
      assert b[p[k]] == b[q[k]];
    }
  }

  lemma ByFirstByteSorted(b: Block, p: seq<nat>)
    requires |b| > 0 && IsPerm(p, |b|) && ByFirstByte(b, p)
    ensures IsOrderTo(b, p, 1)
  {
    forall i, j | 0 <= i < j < |b| ensures Cmp(b, p[i], p[j], 1) <= 0 {
      if b[p[j]] < b[p[i]] { LessMonotone(b, |b|, b[p[j]] as int + 1, b[p[i]]); }
    }
  }

  /** Sorts all rotations of the block into fmap and leaves the block as it was, although its
      storage is overwritten on the way. */
  method Sort(block: array<byte>, fmap: array<nat>, eclass: array<nat>, bhtab: array<bv32>)
    requires 0 < block.Length == fmap.Length == eclass.Length <= 900000
    requires bhtab.Length >= 3 + block.Length / 32
    requires fmap != eclass && block as object != fmap && block as object != eclass
    requires fmap as object != bhtab && eclass as object != bhtab && block as object != bhtab
    modifies block, fmap, eclass, bhtab
    ensures block[..] == old(block[..])
    ensures IsRotationOrder(block[..], fmap[..])
  {
    hide Spells, HeadAt, ByFirstByte, HeadsAreStarts, IsRotationOrder;
    ghost var b := block[..];
    var ftab, ftabCopy := CountBytes(block);
    Distribute(block, fmap, ftab);
    ghost var p := fmap[..];
    var bh := new BitTable(bhtab, 2 + block.Length / 32);
    MarkStarts(bh, ftab, block.Length, b);
    InitiallyRefined(b, p, bh.bits);
    Refine(block, fmap, eclass, bh, b);
    FirstBytesKept(b, p, fmap[..]);
    RotationOrderIsPerm(b, fmap[..]);
    RebuildBlock(block, fmap, ftabCopy, b);
  }

  lemma RotationOrderIsPerm(b: Block, p: seq<nat>)
    requires IsRotationOrder(b, p)
    ensures IsPerm(p, |b|)
  {
  }

  /** The first row that holds rotation 0. */
  method FindOrigPtr(ptr: array<nat>, ghost b: Block) returns (origPtr: int)
    requires IsRotationOrder(b, ptr[..]) && ptr.Length == |b|
    ensures 0 <= origPtr < ptr.Length && ptr[origPtr] == 0
  {
    origPtr := -1;
    var i := 0;
    while i < ptr.Length
      invariant i <= ptr.Length
      invariant forall k :: 0 <= k < i ==> ptr[k] != 0
    {
      if ptr[i] == 0 { origPtr := i; return; }
      i := i + 1;
    }
    var m := PermSurjective(ptr[..], |b|, 0);
    assert false;
  }
}
