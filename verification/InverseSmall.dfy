/** The SMALL inverse transform: links of 20 bits split over a 16-bit array and a nibble
    array, computed as ranks and then turned round along one cycle. */
module InverseSmall {
  import opened Rotations
  import opened Permutations
  import opened BurrowsWheeler
  import InverseFast

  /** Binary search for the byte whose bucket holds row indx. */
  method IndexIntoF(indx: nat, cftab: array<nat>, ghost l: seq<byte>) returns (c: byte)
    requires BucketStarts(l, cftab[..]) && indx < |l|
    ensures Less(l, |l|, c) <= indx < Less(l, |l|, c as int + 1)
  {
    LessBounds(l, |l|);
    var nb, na := 0, 256;
    while na - nb != 1
      invariant 0 <= nb < na <= 256
      invariant cftab[nb] <= indx < cftab[na]
      decreases na - nb
    {
      var mid := (nb + na) / 2;
      if indx >= cftab[mid] { nb := mid; } else { na := mid; }
    }
    c := nb;
  }

  /** The bucket of a row is the one of the byte that the sort puts there. */
  lemma BucketOfRow(l: seq<byte>, sorted: seq<nat>, row: nat, c: byte)
    requires IsStableSort(l, sorted) && row < |l|
    requires Less(l, |l|, c) <= row < Less(l, |l|, c as int + 1)
    ensures c == l[sorted[row]]
  {
    var i := sorted[row];
    RankInRange(l, i);
    if c < l[i] { LessMonotone(l, |l|, c as int + 1, l[i]); }
    if l[i] < c { LessMonotone(l, |l|, l[i] as int + 1, c); }
  }

  /** GET_LL4 within one byte: even entries in the low half, odd ones in the high half. */
  function Nibble(w: nat, i: nat): (r: nat)
    requires w < 256
    ensures r < 16
  {
    if i % 2 == 0 then w % 16 else w / 16
  }

  /** SET_LL4 within one byte: the other half keeps its value. */
  function WithNibble(w: nat, i: nat, n: nat): (r: nat)
    requires w < 256 && n < 16
    ensures r < 256 && Nibble(r, i) == n
    ensures forall k: nat :: k % 2 != i % 2 ==> Nibble(r, k) == Nibble(w, k)
  {
    if i % 2 == 0 then (w / 16) * 16 + n else w % 16 + n * 16
  }

  /** An array of 20-bit entries: sixteen bits each in ll16, four bits each in ll4. */
  class LinkArray {
    const ll16: array<nat>
    const ll4: array<nat>
    ghost var entries: seq<nat>

    ghost predicate Valid()
      reads this, ll16, ll4
    {
      && ll16 != ll4
      && |entries| == ll16.Length
      && ll4.Length == (1 + ll16.Length) / 2
      && (forall i :: 0 <= i < ll4.Length ==> ll4[i] < 256)
      && (forall i :: 0 <= i < ll16.Length ==> ll16[i] < 0x1_0000)
      && (forall i :: 0 <= i < ll16.Length ==> entries[i] == ll16[i] + 0x1_0000 * Nibble(ll4[i / 2], i))
    }

    /** Wraps two arrays as they come; ll4 may hold anything. */
    constructor (ll16: array<nat>, ll4: array<nat>)
      requires ll16 != ll4 && ll4.Length == (1 + ll16.Length) / 2
      requires forall i :: 0 <= i < ll4.Length ==> ll4[i] < 256
      requires forall i :: 0 <= i < ll16.Length ==> ll16[i] < 0x1_0000
      ensures Valid() && this.ll16 == ll16 && this.ll4 == ll4
      ensures forall i :: 0 <= i < |entries| ==> entries[i] % 0x1_0000 == ll16[i]
    {
      this.ll16, this.ll4 := ll16, ll4;
      this.entries := seq(ll16.Length, i requires 0 <= i < ll16.Length && ll4[i / 2] < 256 reads ll16, ll4 =>
        ll16[i] + 0x1_0000 * Nibble(ll4[i / 2], i));
    }

    method Get(i: nat) returns (n: nat)
      requires Valid() && i < |entries|
      ensures n == entries[i]
    {
      n := ll16[i] + 0x1_0000 * Nibble(ll4[i / 2], i);
    }

    /** The low sixteen bits alone. */
    method GetLow(i: nat) returns (n: nat)
      requires Valid() && i < |entries|
      ensures n == entries[i] % 0x1_0000
    {
      n := ll16[i];
    }

    /** The entries behave like an array of their own, although two of them share each byte
        of ll4. */
    method Set(i: nat, n: nat)
      requires Valid() && i < |entries| && n < 0x10_0000
      modifies this, ll16, ll4
      ensures Valid() && entries == old(entries)[i := n]
    {
      ll16[i] := n % 0x1_0000;
      ll4[i / 2] := WithNibble(ll4[i / 2], i, n / 0x1_0000);
      entries := entries[i := n];
      forall k | 0 <= k < |entries|
        ensures entries[k] == ll16[k] + 0x1_0000 * Nibble(ll4[k / 2], k)
      {
        if k != i && k / 2 == i / 2 { assert k % 2 != i % 2; }
      }
    }
  }

  /** starts[c] is the first sorted row whose byte is c or more. */
  ghost predicate BucketStarts(l: seq<byte>, starts: seq<nat>) {
    |starts| == 257 && forall b :: 0 <= b <= 256 ==> starts[b] == Less(l, |l|, b)
  }

  /** The rows of a cycle whose entries all link to the row that follows in the walk. */
  ghost predicate LinksOn(l: seq<byte>, sorted: seq<nat>, cycle: set<nat>, entries: seq<nat>) {
    && IsStableSort(l, sorted) && |sorted| == |l| <= |entries|
    && (forall j :: j in cycle ==> j < |l|)
    && forall j {:trigger entries[j]} :: j in cycle ==> sorted[j] in cycle && entries[j] == sorted[j]
  }

  lemma FollowLink(l: seq<byte>, sorted: seq<nat>, cycle: set<nat>, entries: seq<nat>, row: nat)
    requires LinksOn(l, sorted, cycle, entries) && row in cycle
    ensures IsStableSort(l, sorted)
    ensures row < |l| == |sorted| && entries[row] == sorted[row] < |l| && sorted[row] in cycle
  {
    hide Rank;
    assert entries[row] == sorted[row];
  }

  /** The state the SMALL decoder keeps between bytes. */
  class SmallTable {
    const ll: LinkArray
    const cftab: array<nat>
    const blockSize100k: nat
    var tPos: nat
    ghost var column: seq<byte>
    ghost var sorted: seq<nat>
    /** the rows on the cycle through the starting row, whose links have been turned round */
    ghost var cycle: set<nat>

    /** The arrays belong together and cftab holds the bucket starts of the column. */
    ghost predicate Shaped()
      reads this, ll, ll.ll16, ll.ll4, cftab
    {
      && ll.Valid()
      && cftab != ll.ll16 && cftab != ll.ll4
      && |ll.entries| == 100000 * blockSize100k <= 900000
      && 0 < |column| <= |ll.entries|
      && BucketStarts(column, cftab[..])
    }

    /** Every row on the cycle links to the row that follows it in the walk. */
    ghost predicate Valid()
      reads this, ll, ll.ll16, ll.ll4, cftab
    {
      && Shaped()
      && tPos in cycle
      && LinksOn(column, sorted, cycle, ll.entries)
    }

    lemma Follows()
      requires Valid()
      ensures IsStableSort(column, sorted) && tPos < |column| && sorted[tPos] < |column|
    {
      hide BucketStarts, LinkArray.Valid;
      FollowLink(column, sorted, cycle, ll.entries, tPos);
    }

    /** The next byte: the one whose bucket holds tPos, after which tPos follows the link. */
    method Get() returns (corrupt: bool, c: byte)
      requires Valid()
      modifies this`tPos
      ensures Valid() && !corrupt
      ensures IsStableSort(column, sorted) && old(tPos) < |column|
      ensures tPos == sorted[old(tPos)] && c == column[tPos]
    {
      hide BucketStarts, IsStableSort, LinksOn, LinkArray.Valid;
      FollowLink(column, sorted, cycle, ll.entries, tPos);
      corrupt, c := tPos >= 100000 * blockSize100k, 0;
      if !corrupt {
        c := IndexIntoF(tPos, cftab, column);
        BucketOfRow(column, sorted, tPos, c);
        tPos := ll.Get(tPos);
      }
    }

    constructor (ll: LinkArray, nblock: nat, blockSize100k: nat, unzftab: array<nat>,
                 origPtr: nat, ghost l: seq<byte>)
      requires ll.Valid() && |ll.entries| == 100000 * blockSize100k <= 900000
      requires 0 < |l| == nblock <= |ll.entries| && origPtr < nblock
      requires forall i :: 0 <= i < nblock ==> ll.entries[i] % 0x1_0000 == l[i]
      requires unzftab.Length == 256 && unzftab != ll.ll16 && unzftab != ll.ll4
      requires forall c :: 0 <= c < 256 ==> unzftab[c] == Occ(l, |l|, c)
      modifies ll, ll.ll16, ll.ll4
      ensures Valid() && column == l && tPos == origPtr && this.ll == ll && fresh(cftab)
    {
      this.ll, this.blockSize100k := ll, blockSize100k;
      this.column, this.tPos := l, origPtr;
      cftab := new nat[257];
      new;
      hide LinkArray.Valid;
      var ok := InverseFast.RunningSums(nblock, unzftab, cftab, l);
      ComputeRanks(nblock);
      PointerReversal(origPtr);
    }

    /** Overwrites the bytes held in the entries with each row's rank. */
    method ComputeRanks(nblock: nat)
      requires Shaped() && nblock == |column|
      requires forall i :: 0 <= i < nblock ==> ll.entries[i] % 0x1_0000 == column[i]
      modifies ll, ll.ll16, ll.ll4
      ensures Shaped()
      ensures RanksUpTo(column, nblock, ll.entries)
    {
      hide LinkArray.Valid, BucketStarts, NextSlots, RanksUpTo, Rank;
      var cftabCopy := CopyOf(cftab);
      Starts(column, cftabCopy[..], ll.entries);
      for i := 0 to nblock
        invariant Shaped()
        invariant NextSlots(column, i, cftabCopy[..])
        invariant RanksUpTo(column, i, ll.entries)
      {
        var low := ll.GetLow(i);
        var uc := low % 256;
        NextSlot(column, i, cftabCopy[..], ll.entries);
        ll.Set(i, cftabCopy[uc]);
        cftabCopy[uc] := cftabCopy[uc] + 1;
      }
    }

    /** Walks the cycle of the ranks through origPtr, turning each link round, until it comes
        back; rows off the cycle keep their ranks and are never visited again. */
    method PointerReversal(origPtr: nat)
      requires Shaped() && tPos == origPtr < |column|
      requires RanksUpTo(column, |column|, ll.entries)
      modifies ll, ll.ll16, ll.ll4, this`sorted, this`cycle
      ensures Valid()
    {
      hide Turning, RanksUpTo, LinkArray.Valid, BucketStarts, LinksOn;
      sorted := StableSort(column);
      cycle := {};
      TurningStart(column, sorted, ll.entries, origPtr);
      var i := origPtr;
      var j := ll.Get(i);
      var first := true;
      while first || i != origPtr
        invariant Shaped()
        invariant Turning(column, sorted, cycle, ll.entries, origPtr, i, j, first)
        decreases |column| - |cycle|
      {
        TurningBound(column, sorted, cycle, ll.entries, origPtr, i, j, first);
        TurningStep(column, sorted, cycle, ll.entries, origPtr, i, j, first);
        var tmp := ll.Get(j);
        ll.Set(j, i);
        cycle := cycle + {j};
        i, j := j, tmp;
        first := false;
      }
      TurningEnd(column, sorted, cycle, ll.entries, origPtr, j);
    }
  }

  method CopyOf(a: array<nat>) returns (c: array<nat>)
    ensures fresh(c) && c[..] == a[..]
  {
    c := new nat[a.Length];
    for i := 0 to a.Length
      invariant c[..i] == a[..i]
    {
      c[i] := a[i];
    }
    assert a[..a.Length] == a[..];
  }

  /** next[c] is the row for the next entry equal to c, once i entries have been placed. */
  ghost predicate NextSlots(l: seq<byte>, i: nat, next: seq<nat>) {
    && i <= |l| && |next| == 257
    && forall c :: 0 <= c < 256 ==> next[c] == Less(l, |l|, c) + Occ(l, i, c)
  }

  /** The first i entries hold ranks, the others still hold bytes in their low part. */
  ghost predicate RanksUpTo(l: seq<byte>, i: nat, entries: seq<nat>) {
    && i <= |l| <= |entries|
    && (forall k :: 0 <= k < i ==> entries[k] == Rank(l, k))
    && (forall k :: i <= k < |l| ==> entries[k] % 0x1_0000 == l[k])
  }

  lemma Starts(l: seq<byte>, starts: seq<nat>, entries: seq<nat>)
    requires BucketStarts(l, starts) && |l| <= |entries|
    requires forall i :: 0 <= i < |l| ==> entries[i] % 0x1_0000 == l[i]
    ensures NextSlots(l, 0, starts) && RanksUpTo(l, 0, entries)
  {
  }

  lemma NextSlot(l: seq<byte>, i: nat, next: seq<nat>, entries: seq<nat>)
    requires NextSlots(l, i, next) && RanksUpTo(l, i, entries) && i < |l|
    ensures entries[i] % 0x1_0000 == l[i]
    ensures |next| == 257 && next[l[i]] == Rank(l, i)
    ensures NextSlots(l, i + 1, next[l[i] := next[l[i]] + 1])
    ensures RanksUpTo(l, i + 1, entries[i := next[l[i]]])
  {
  }

  /** Pointer reversal in progress: the links of the rows in cycle are turned round and lead
      towards start, all others are still ranks, and the row to turn next is j, which follows
      i on the cycle. */
  ghost predicate Turning(l: seq<byte>, sorted: seq<nat>, cycle: set<nat>, entries: seq<nat>,
                          start: nat, i: nat, j: nat, first: bool)
  {
    && IsStableSort(l, sorted) && |sorted| == |l| <= |entries| && i < |l|
    && (forall v :: v in cycle ==> v < |l|)
    && (forall v {:trigger entries[v]} :: v in cycle ==>
          entries[v] == sorted[v] && (sorted[v] in cycle || sorted[v] == start))
    && (forall v: nat :: v < |l| && v !in cycle ==> entries[v] == Rank(l, v))
    && (if first then i == start && cycle == {} else i in cycle)
    && (first || i != start ==> j == Rank(l, i) && forall v :: v in cycle ==> sorted[v] != i)
  }

  lemma TurningBound(l: seq<byte>, sorted: seq<nat>, cycle: set<nat>, entries: seq<nat>,
                     start: nat, i: nat, j: nat, first: bool)
    requires Turning(l, sorted, cycle, entries, start, i, j, first)
    ensures |cycle| <= |l|
  {
    BelowSize(|l|);
    SubsetSize(cycle, Below(|l|));
  }

  lemma TurningStart(l: seq<byte>, sorted: seq<nat>, entries: seq<nat>, start: nat)
    requires IsStableSort(l, sorted) && start < |l| && RanksUpTo(l, |l|, entries)
    ensures Turning(l, sorted, {}, entries, start, start, entries[start], true)
  {
    hide Rank;
  }

  /** When the cycle closes, its rows all link to one another along the stable sort. */
  lemma TurningEnd(l: seq<byte>, sorted: seq<nat>, cycle: set<nat>, entries: seq<nat>, start: nat, j: nat)
    requires Turning(l, sorted, cycle, entries, start, start, j, false)
    ensures start in cycle && LinksOn(l, sorted, cycle, entries)
  {
    hide IsStableSort;
    forall v | v in cycle
      ensures sorted[v] in cycle && entries[v] == sorted[v]
    {
      assert entries[v] == sorted[v];
    }
  }

  /** One turn: the row reached has not been turned before, so the cycle closes only at its
      start. */
  lemma TurningStep(l: seq<byte>, sorted: seq<nat>, cycle: set<nat>, entries: seq<nat>,
                    start: nat, i: nat, j: nat, first: bool)
    requires Turning(l, sorted, cycle, entries, start, i, j, first)
    requires first || i != start
    ensures i < |l| && j < |l| <= |entries|
    ensures Turning(l, sorted, cycle + {j}, entries[j := i], start, j, entries[j], false)
    ensures j !in cycle
  {
    hide Rank;
    StableSortInverse(l, sorted, i);
    assert sorted[j] == i && j !in cycle;
    var next := entries[j := i];
    forall v | v in cycle
      ensures next[v] == sorted[v] && (sorted[v] in cycle || sorted[v] == start)
    {
      assert entries[v] == sorted[v];
    }
  }
}
