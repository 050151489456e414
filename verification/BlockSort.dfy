/** Sorting a block one way or the other: short blocks and blocks too repetitive for the main sort
    go to the fallback sort.  Either order will do for the transform. */
module BlockSort {
  import opened Rotations
  import opened MainCompare
  import opened Products
  import FallbackSort
  import MainSort

  const MAIN_SORT_THRESH: nat := 10000

  /** How much work the main sort may do. */
  function BudgetInit(nblock: nat, workFactor: int): (r: nat)
    ensures workFactor <= 3 ==> r == 0
    ensures nblock <= 900000 ==> r < 0x8000_0000
  {
    var wfact := if workFactor < 1 then 1 else if workFactor > 100 then 100 else workFactor;
    WorkBounds(nblock, (wfact - 1) / 3);
    nblock * ((wfact - 1) / 3)
  }

  lemma WorkBounds(n: nat, w: nat)
    requires w <= 33
    ensures 0 <= n * w <= 33 * n && (w == 0 ==> n * w == 0)
  {
    TimesUp(0, w, n);
    TimesUp(w, 33, n);
  }

  /** The block in storage with room for the overshoot behind it. */
  method WithRoom(block: array<byte>) returns (roomy: array<byte>)
    ensures fresh(roomy) && roomy.Length == block.Length + N_OVERSHOOT && roomy[..block.Length] == block[..]
  {
    roomy := new byte[block.Length + N_OVERSHOOT](_ => 0);
    for i := 0 to block.Length
      invariant roomy[..i] == block[..i]
    {
      roomy[i] := block[i];
    }
  }

  method ByFallback(block: array<byte>) returns (ptr: array<nat>)
    requires 0 < block.Length <= 900000
    modifies block
    ensures block[..] == old(block[..]) && fresh(ptr) && ptr.Length == block.Length
    ensures IsRotationOrder(block[..], ptr[..])
  {
    var n := block.Length;
    var fmap, eclass, bhtab := new nat[n], new nat[n], new bv32[3 + n / 32];
    FallbackSort.Sort(block, fmap, eclass, bhtab);
    ptr := fmap;
  }

  /** The main sort, on storage of its own; left is negative if it gave up. */
  method ByMainSort(block: array<byte>, workFactor: int) returns (ptr: array<nat>, left: int)
    requires N_OVERSHOOT < block.Length <= 900000
    ensures fresh(ptr) && ptr.Length == block.Length
    ensures left >= 0 ==> IsRotationOrder(block[..], ptr[..])
    ensures TwelveTell(block[..]) ==> left >= 0
  {
    var n := block.Length;
    var roomy := WithRoom(block);
    var quadrant, ftab := new nat[n + N_OVERSHOOT], new nat[0x1_0001];
    ptr := new nat[n];
    left := MainSort.Sort(ptr, roomy, quadrant, ftab, n, BudgetInit(n, workFactor));
    hide IsRotationOrder;
  }

  /** Sorts the block and finds the row of rotation 0, whatever the work factor. */
  method SortBlock(block: array<byte>, workFactor: int) returns (ptr: array<nat>, origPtr: nat)
    requires 0 < block.Length <= 900000
    modifies block
    ensures block[..] == old(block[..]) && fresh(ptr) && ptr.Length == block.Length
    ensures IsRotationOrder(block[..], ptr[..]) && origPtr < block.Length && ptr[origPtr] == 0
  {
    ghost var b := block[..];
    hide IsRotationOrder;
    if block.Length < MAIN_SORT_THRESH {
      ptr := ByFallback(block);
    } else {
      var left;
      ptr, left := ByMainSort(block, workFactor);
      if left < 0 {
        ptr := ByFallback(block);
      }
    }
    var at := FallbackSort.FindOrigPtr(ptr, b);
    origPtr := at;
  }
}
