/** The last stage of the decoder: the bytes of the inverse transform are expanded into the
    output, stopping wherever the caller's room ends and going on from there. */
module UnRle {
  import opened Rotations
  import opened BurrowsWheeler
  import opened MoveToFront
  import opened InverseFast
  import opened InverseSmall
  import opened BlockCrc
  import opened RunLength

  // ---- the walk, read two bytes past the end ----

  /** All bytes the decoder may ask for: the block, and two more of the endless walk. */
  ghost function Tape(l: seq<byte>, sorted: seq<nat>, start: nat): (w: seq<byte>)
    requires IsStableSort(l, sorted) && start < |l|
    ensures |w| == |l| + 2
  {
    Walk(l, sorted, start, |l| + 2)
  }

  /** What a column and a row say, whichever tables are made of them. */
  ghost function ColumnTape(l: seq<byte>, origPtr: nat): (w: seq<byte>)
    requires origPtr < |l|
    ensures |w| == |l| + 2
  {
    Tape(l, StableSort(l), StableSort(l)[origPtr])
  }

  lemma OneTape(l: seq<byte>, sorted: seq<nat>, origPtr: nat)
    requires IsStableSort(l, sorted) && origPtr < |l|
    ensures sorted[origPtr] < |l| && Tape(l, sorted, sorted[origPtr]) == ColumnTape(l, origPtr)
  {
    StableSortUnique(l, sorted, StableSort(l));
  }

  lemma {:induction false} WalkPrefix(l: seq<byte>, sorted: seq<nat>, t: nat, m: nat, k: nat)
    requires IsStableSort(l, sorted) && t < |l| && m <= k
    ensures Walk(l, sorted, t, k)[..m] == Walk(l, sorted, t, m)
    decreases m
  {
    if m > 0 { WalkPrefix(l, sorted, sorted[t], m - 1, k - 1); }
  }

  // ---- between two runs ----

  /** used bytes of the tape have been fetched, the last of them into k0; the bytes before it
      expand to what has been given out and len more times ch. */
  ghost predicate Playing(w: seq<byte>, n: nat, used: nat, k0: byte, len: nat, ch: byte, given: seq<byte>) {
    && 0 < n && |w| == n + 2 && 1 <= used <= n + 2
    && (used <= n ==> k0 == w[used - 1] && Apart(w[..used - 1], k0))
    && (used <= n + 1 ==> Expand(w[..used - 1]).m < 4 && Expand(w[..used - 1]).out == given + Repeat(ch, len))
    && (used == n + 2 ==> Expand(w[..n]).m == 4)
  }

  lemma PlayStart(w: seq<byte>, n: nat, ch: byte)
    requires 0 < n && |w| == n + 2
    ensures Playing(w, n, 1, w[0], 0, ch, [])
  {
    assert w[..0] == [];
  }

  lemma PlayOne(w: seq<byte>, n: nat, used: nat, k0: byte, len: nat, ch: byte, given: seq<byte>)
    requires Playing(w, n, used, k0, len, ch, given) && len > 0
    ensures Playing(w, n, used, k0, len - 1, ch, given + [ch])
  {
    assert given + Repeat(ch, len) == (given + [ch]) + Repeat(ch, len - 1);
  }

  /** When all fetched bytes have been given out and the block is used up, the block is what
      was given out; past that point a count was missing. */
  lemma PlayEnd(w: seq<byte>, n: nat, used: nat, k0: byte, len: nat, ch: byte, given: seq<byte>)
    requires Playing(w, n, used, k0, len, ch, given) && len == 0
    ensures used == n + 1 ==> Complete(w[..n]) && given == Expand(w[..n]).out
    ensures used > n + 1 ==> !Complete(w[..n])
  {
    assert given + Repeat(ch, 0) == given;
  }

  lemma {:induction false} ExpandGrows(s: seq<byte>, i: nat, k: nat)
    requires i <= k <= |s|
    ensures |Expand(s[..i]).out| <= |Expand(s[..k]).out|
    decreases k
  {
    hide Expand;
    if i < k {
      ExpandGrows(s, i, k - 1);
      ExpandNext(s[..k - 1], s[k - 1]);
      assert s[..k] == s[..k - 1] + [s[k - 1]];
    }
  }

  /** As long as the block is not used up, there is more to give out. */
  lemma PlayMore(w: seq<byte>, n: nat, used: nat, k0: byte, len: nat, ch: byte, given: seq<byte>)
    requires Playing(w, n, used, k0, len, ch, given) && Complete(w[..n]) && !(used == n + 1 && len == 0)
    ensures |given| < |Expand(w[..n]).out|
  {
    hide Expand;
    ExpandGrows(w, used - 1, n);
    if len == 0 {
      ExpandNext(w[..used - 1], w[used - 1]);
      assert w[..used] == w[..used - 1] + [w[used - 1]];
      ExpandGrows(w, used, n);
    }
  }

  /** The next k bytes of the tape are equal. */
  ghost predicate Same(w: seq<byte>, i: nat, k: nat) {
    i + k <= |w| && forall j :: i <= j < i + k ==> w[j] == w[i]
  }

  lemma SameRun(w: seq<byte>, i: nat, k: nat)
    requires Same(w, i, k) && 1 <= k <= 4 && Apart(w[..i], w[i])
    ensures Expand(w[..i + k]) == Run(Expand(w[..i]).out + Repeat(w[i], k), w[i], k)
  {
    RunExpands(w[..i], w[i], k);
    assert w[..i + k] == w[..i] + Repeat(w[i], k);
  }

  /** A run of fewer than four that ends with the block or before a different byte. */
  lemma ShortRun(w: seq<byte>, n: nat, used: nat, k0: byte, ch: byte, given: seq<byte>, k: nat, k1: byte)
    requires Playing(w, n, used, k0, 0, ch, given) && used <= n && 1 <= k <= 3 && used - 1 + k <= n
    requires Same(w, used - 1, k)
    requires used - 1 + k < n ==> k1 == w[used - 1 + k] != k0
    ensures Playing(w, n, used + k, k1, k, k0, given)
  {
    hide Expand;
    SameRun(w, used - 1, k);
    assert given + Repeat(ch, 0) == given;
  }

  /** Four equal bytes, their count, and the byte after it. */
  lemma LongRun(w: seq<byte>, n: nat, used: nat, k0: byte, ch: byte, given: seq<byte>)
    requires Playing(w, n, used, k0, 0, ch, given) && used + 3 <= n && Same(w, used - 1, 4)
    ensures Playing(w, n, used + 5, w[used + 4], w[used + 3] as nat + 4, k0, given)
  {
    hide Expand;
    var i := used - 1;
    SameRun(w, i, 4);
    assert given + Repeat(ch, 0) == given;
    if used + 3 < n {
      ExpandNext(w[..i + 4], w[i + 4]);
      assert w[..i + 5] == w[..i + 4] + [w[i + 4]];
      assert Repeat(k0, 4) + Repeat(k0, w[i + 4]) == Repeat(k0, w[i + 4] as nat + 4);
      assert given + Repeat(k0, 4) + Repeat(k0, w[i + 4]) == given + (Repeat(k0, 4) + Repeat(k0, w[i + 4]));
    } else {
      assert i + 4 == n;
    }
  }

  lemma PlayingShape(w: seq<byte>, n: nat, used: nat, k0: byte, len: nat, ch: byte, given: seq<byte>)
    requires Playing(w, n, used, k0, len, ch, given)
    ensures 0 < n && |w| == n + 2 && 1 <= used <= n + 2 && (used <= n ==> k0 == w[used - 1])
  {
  }

  lemma CrcNext(given: seq<byte>, ch: byte)
    ensures Crc(given + [ch]) == Update(Crc(given), ch)
  {
    assert (given + [ch])[..|given|] == given;
  }

  // ---- the FAST decoder's output ----

  /** The caller's side of the decompressor. */
  class DStrm {
    var availOut: nat
    var out: seq<byte>

    constructor ()
      ensures out == []
    {
      availOut, out := 0, [];
    }
  }

  class FastOutput {
    const strm: DStrm
    const table: FastTable
    const saveNblock: nat
    var nblockUsed: nat
    var k0: byte
    var stateOutLen: nat
    var stateOutCh: byte
    var calculatedBlockCRC: bv32
    ghost const w: seq<byte>
    /** the bytes of this block given out so far */
    ghost var given: seq<byte>

    ghost predicate Reading()
      reads `nblockUsed, table, table.tt
    {
      && table.Valid() && saveNblock == |table.column| && |w| == saveNblock + 2 && nblockUsed <= saveNblock + 2
      && Walk(table.column, table.sorted, table.tPos, saveNblock + 2 - nblockUsed) == w[nblockUsed..]
    }

    ghost predicate Valid()
      reads this, table, table.tt
    {
      && Reading() && Playing(w, saveNblock, nblockUsed, k0, stateOutLen, stateOutCh, given)
      && calculatedBlockCRC == Crc(given)
    }

    constructor (strm: DStrm, table: FastTable, nblock: nat, ghost start: nat)
      requires table.Valid() && table.tPos == start && nblock == |table.column|
      ensures Reading() && nblockUsed == 0 && given == [] && stateOutLen == 0 && calculatedBlockCRC == 0xffff_ffff
      ensures this.strm == strm && this.table == table && saveNblock == nblock && start < nblock
      ensures w == Tape(table.column, table.sorted, start)
    {
      hide Rank, IsStableSort, OrHigh;
      this.strm, this.table, this.saveNblock := strm, table, nblock;
      nblockUsed, stateOutLen, stateOutCh, k0 := 0, 0, 0, 0;
      calculatedBlockCRC := 0xffff_ffff;
      given := [];
      w := Tape(table.column, table.sorted, start);
      new;
      assert w[0..] == w;
    }

    /** Fetches the first byte, which opens the first run. */
    method Begin()
      requires Reading() && nblockUsed == 0 && given == [] && stateOutLen == 0 && calculatedBlockCRC == 0xffff_ffff
      requires saveNblock > 0
      modifies this`nblockUsed, this`k0, table`tPos
      ensures Valid()
    {
      hide Walk, Expand, Playing, IsStableSort, Rank;
      k0 := Get();
      PlayStart(w, saveNblock, stateOutCh);
    }

    /** One more byte of the tape. */
    method Get() returns (c: byte)
      requires Reading() && nblockUsed < saveNblock + 2
      modifies this`nblockUsed, table`tPos
      ensures Reading() && c == w[old(nblockUsed)] && nblockUsed == old(nblockUsed) + 1
    {
      hide IsStableSort, Rank;
      var corrupt;
      assert w[nblockUsed..][0] == w[nblockUsed] && w[nblockUsed..][1..] == w[nblockUsed + 1..];
      corrupt, c := table.Get();
      nblockUsed := nblockUsed + 1;
    }

    /** Fetches the next run: up to three equal bytes, or four and their count. */
    method StartRun()
      requires Valid() && stateOutLen == 0 && nblockUsed <= saveNblock
      modifies this`nblockUsed, this`k0, this`stateOutLen, this`stateOutCh, table`tPos
      ensures Valid() && stateOutLen > 0 && nblockUsed > old(nblockUsed)
    {
      hide Playing, IsStableSort, Rank, Crc, Reading, Walk, Expand, Apart;
      ghost var u, ch, kk := nblockUsed, stateOutCh, k0;
      PlayingShape(w, saveNblock, u, k0, 0, ch, given);
      stateOutCh := k0;
      var k1 := Get();
      if k1 != k0 || nblockUsed == saveNblock + 1 {
        ShortRun(w, saveNblock, u, k0, ch, given, 1, if k1 != k0 then k1 else k0);
        if k1 != k0 { k0 := k1; }
        stateOutLen := 1;
        return;
      }
      stateOutLen := 2;
      k1 := Get();
      if nblockUsed == saveNblock + 1 {
        ShortRun(w, saveNblock, u, k0, ch, given, 2, k0);
        return;
      }
      if k1 != k0 {
        ShortRun(w, saveNblock, u, k0, ch, given, 2, k1);
        k0 := k1;
        return;
      }
      stateOutLen := 3;
      k1 := Get();
      if nblockUsed == saveNblock + 1 {
        ShortRun(w, saveNblock, u, k0, ch, given, 3, k0);
        return;
      }
      if k1 != k0 {
        ShortRun(w, saveNblock, u, k0, ch, given, 3, k1);
        k0 := k1;
        return;
      }
      LongRun(w, saveNblock, u, k0, ch, given);
      k1 := Get();
      stateOutLen := k1 as nat + 4;
      k0 := Get();
    }

    /** Gives out one byte of the current run. */
    method PutOne()
      requires Valid() && stateOutLen > 0 && strm.availOut > 0
      modifies this`stateOutLen, this`calculatedBlockCRC, this`given, strm
      ensures Valid() && given == old(given) + [stateOutCh] && stateOutLen == old(stateOutLen) - 1
      ensures strm.out == old(strm.out) + [stateOutCh] && strm.availOut == old(strm.availOut) - 1
    {
      hide Playing, IsStableSort, Rank, Crc, Update, FastTable.Valid;
      PlayOne(w, saveNblock, nblockUsed, k0, stateOutLen, stateOutCh, given);
      CrcNext(given, stateOutCh);
      strm.out := strm.out + [stateOutCh];
      calculatedBlockCRC := Update(calculatedBlockCRC, stateOutCh);
      given := given + [stateOutCh];
      stateOutLen := stateOutLen - 1;
      strm.availOut := strm.availOut - 1;
    }

    /** Fills the room there is.  Corruption is reported only for a block that ends in four
        equal bytes without a count. */
    method Unrle() returns (corrupt: bool)
      requires Valid()
      modifies this`nblockUsed, this`k0, this`stateOutLen, this`stateOutCh, this`calculatedBlockCRC, this`given
      modifies table`tPos, strm
      ensures Valid() && Given(old(given), old(strm.out), given, strm.out)
      ensures |strm.out| + strm.availOut == old(|strm.out| + strm.availOut)
      ensures corrupt ==> !Complete(w[..saveNblock])
      ensures !corrupt && !(nblockUsed == saveNblock + 1 && stateOutLen == 0) ==> strm.availOut == 0
    {
      hide Playing, Walk, Crc, Reading, Complete, Given;
      GivenNone(given, strm.out);
      while true
        invariant Valid() && Given(old(given), old(strm.out), given, strm.out)
        invariant |strm.out| + strm.availOut == old(|strm.out| + strm.availOut)
        decreases saveNblock + 2 - nblockUsed
      {
        PlayingShape(w, saveNblock, nblockUsed, k0, stateOutLen, stateOutCh, given);
        ghost var used0 := nblockUsed;
        if stateOutLen > 0 {
          while true
            invariant Valid() && stateOutLen >= 1 && Given(old(given), old(strm.out), given, strm.out)
            invariant nblockUsed == used0 && |strm.out| + strm.availOut == old(|strm.out| + strm.availOut)
            decreases stateOutLen
          {
            if strm.availOut == 0 { return false; }
            if stateOutLen == 1 { break; }
            GivenMore(old(given), old(strm.out), given, strm.out, stateOutCh);
            PutOne();
          }
          GivenMore(old(given), old(strm.out), given, strm.out, stateOutCh);
          PutOne();
        }
        PlayEnd(w, saveNblock, nblockUsed, k0, stateOutLen, stateOutCh, given);
        if nblockUsed > saveNblock + 1 { return true; }
        if nblockUsed == saveNblock + 1 { return false; }
        StartRun();
      }
    }
  }

  // ---- the SMALL decoder's output ----

  class SmallOutput {
    const strm: DStrm
    const table: SmallTable
    const saveNblock: nat
    var nblockUsed: nat
    var k0: byte
    var stateOutLen: nat
    var stateOutCh: byte
    var calculatedBlockCRC: bv32
    ghost const w: seq<byte>
    /** the bytes of this block given out so far */
    ghost var given: seq<byte>

    ghost predicate Reading()
      reads `nblockUsed, table, table.ll, table.ll.ll16, table.ll.ll4, table.cftab
    {
      && table.Valid() && IsStableSort(table.column, table.sorted) && table.tPos < |table.column|
      && saveNblock == |table.column| && |w| == saveNblock + 2 && nblockUsed <= saveNblock + 2
      && Walk(table.column, table.sorted, table.sorted[table.tPos], saveNblock + 2 - nblockUsed) == w[nblockUsed..]
    }

    ghost predicate Valid()
      reads this, table, table.ll, table.ll.ll16, table.ll.ll4, table.cftab
    {
      && Reading() && Playing(w, saveNblock, nblockUsed, k0, stateOutLen, stateOutCh, given)
      && calculatedBlockCRC == Crc(given)
    }

    constructor (strm: DStrm, table: SmallTable, nblock: nat, ghost start: nat)
      requires table.Valid() && table.tPos == start && nblock == |table.column|
      requires IsStableSort(table.column, table.sorted) && start < nblock
      ensures Reading() && nblockUsed == 0 && given == [] && stateOutLen == 0 && calculatedBlockCRC == 0xffff_ffff
      ensures this.strm == strm && this.table == table && saveNblock == nblock
      ensures w == Tape(table.column, table.sorted, table.sorted[start])
    {
      hide Rank;
      this.strm, this.table, this.saveNblock := strm, table, nblock;
      nblockUsed, stateOutLen, stateOutCh, k0 := 0, 0, 0, 0;
      calculatedBlockCRC := 0xffff_ffff;
      given := [];
      w := Tape(table.column, table.sorted, table.sorted[start]);
      new;
      assert w[0..] == w;
    }

    /** Fetches the first byte, which opens the first run. */
    method Begin()
      requires Reading() && nblockUsed == 0 && given == [] && stateOutLen == 0 && calculatedBlockCRC == 0xffff_ffff
      requires saveNblock > 0
      modifies this`nblockUsed, this`k0, table`tPos
      ensures Valid()
    {
      hide Walk, Expand, Playing, IsStableSort, Rank;
      k0 := Get();
      PlayStart(w, saveNblock, stateOutCh);
    }

    /** One more byte of the tape. */
    method Get() returns (c: byte)
      requires Reading() && nblockUsed < saveNblock + 2
      modifies this`nblockUsed, table`tPos
      ensures Reading() && c == w[old(nblockUsed)] && nblockUsed == old(nblockUsed) + 1
    {
      hide IsStableSort, Rank;
      var corrupt;
      assert w[nblockUsed..][0] == w[nblockUsed] && w[nblockUsed..][1..] == w[nblockUsed + 1..];
      corrupt, c := table.Get();
      nblockUsed := nblockUsed + 1;
    }

    /** Fetches the next run: up to three equal bytes, or four and their count. */
    method StartRun()
      requires Valid() && stateOutLen == 0 && nblockUsed <= saveNblock
      modifies this`nblockUsed, this`k0, this`stateOutLen, this`stateOutCh, table`tPos
      ensures Valid() && stateOutLen > 0 && nblockUsed > old(nblockUsed)
    {
      hide Playing, IsStableSort, Rank, Crc, Reading, Walk, Expand, Apart;
      ghost var u, ch, kk := nblockUsed, stateOutCh, k0;
      PlayingShape(w, saveNblock, u, k0, 0, ch, given);
      stateOutLen := 1;
      stateOutCh := k0;
      var k1 := Get();
      if nblockUsed == saveNblock + 1 {
        ShortRun(w, saveNblock, u, k0, ch, given, 1, k0);
        return;
      }
      if k1 != k0 {
        ShortRun(w, saveNblock, u, k0, ch, given, 1, k1);
        k0 := k1;
        return;
      }
      stateOutLen := 2;
      k1 := Get();
      if nblockUsed == saveNblock + 1 {
        ShortRun(w, saveNblock, u, k0, ch, given, 2, k0);
        return;
      }
      if k1 != k0 {
        ShortRun(w, saveNblock, u, k0, ch, given, 2, k1);
        k0 := k1;
        return;
      }
      stateOutLen := 3;
      k1 := Get();
      if nblockUsed == saveNblock + 1 {
        ShortRun(w, saveNblock, u, k0, ch, given, 3, k0);
        return;
      }
      if k1 != k0 {
        ShortRun(w, saveNblock, u, k0, ch, given, 3, k1);
        k0 := k1;
        return;
      }
      LongRun(w, saveNblock, u, k0, ch, given);
      k1 := Get();
      stateOutLen := k1 as nat + 4;
      k0 := Get();
    }

    /** Gives out one byte of the current run. */
    method PutOne()
      requires Valid() && stateOutLen > 0 && strm.availOut > 0
      modifies this`stateOutLen, this`calculatedBlockCRC, this`given, strm
      ensures Valid() && given == old(given) + [stateOutCh] && stateOutLen == old(stateOutLen) - 1
      ensures strm.out == old(strm.out) + [stateOutCh] && strm.availOut == old(strm.availOut) - 1
    {
      hide Playing, IsStableSort, Rank, Crc, Update, SmallTable.Valid;
      PlayOne(w, saveNblock, nblockUsed, k0, stateOutLen, stateOutCh, given);
      CrcNext(given, stateOutCh);
      strm.out := strm.out + [stateOutCh];
      calculatedBlockCRC := Update(calculatedBlockCRC, stateOutCh);
      given := given + [stateOutCh];
      stateOutLen := stateOutLen - 1;
      strm.availOut := strm.availOut - 1;
    }

    /** Fills the room there is.  Corruption is reported only for a block that ends in four
        equal bytes without a count. */
    method Unrle() returns (corrupt: bool)
      requires Valid()
      modifies this`nblockUsed, this`k0, this`stateOutLen, this`stateOutCh, this`calculatedBlockCRC, this`given
      modifies table`tPos, strm
      ensures Valid() && Given(old(given), old(strm.out), given, strm.out)
      ensures |strm.out| + strm.availOut == old(|strm.out| + strm.availOut)
      ensures corrupt ==> !Complete(w[..saveNblock])
      ensures !corrupt && !(nblockUsed == saveNblock + 1 && stateOutLen == 0) ==> strm.availOut == 0
    {
      hide Playing, Walk, Crc, Reading, Complete, Given;
      GivenNone(given, strm.out);
      while true
        invariant Valid() && Given(old(given), old(strm.out), given, strm.out)
        invariant |strm.out| + strm.availOut == old(|strm.out| + strm.availOut)
        decreases saveNblock + 2 - nblockUsed
      {
        PlayingShape(w, saveNblock, nblockUsed, k0, stateOutLen, stateOutCh, given);
        ghost var used0 := nblockUsed;
        while true
          invariant Valid() && Given(old(given), old(strm.out), given, strm.out)
          invariant nblockUsed == used0 && |strm.out| + strm.availOut == old(|strm.out| + strm.availOut)
          decreases stateOutLen
        {
          if strm.availOut == 0 { return false; }
          if stateOutLen == 0 { break; }
          GivenMore(old(given), old(strm.out), given, strm.out, stateOutCh);
          PutOne();
        }
        PlayEnd(w, saveNblock, nblockUsed, k0, stateOutLen, stateOutCh, given);
        if nblockUsed == saveNblock + 1 { return false; }
        if nblockUsed > saveNblock + 1 { return true; }
        StartRun();
      }
    }
  }

  /** The same bytes have been added to both. */
  ghost predicate Given(given0: seq<byte>, out0: seq<byte>, given: seq<byte>, out: seq<byte>) {
    given0 <= given && out == out0 + given[|given0|..]
  }

  lemma GivenNone(given: seq<byte>, out: seq<byte>)
    ensures Given(given, out, given, out)
  {
  }

  lemma GivenMore(given0: seq<byte>, out0: seq<byte>, given: seq<byte>, out: seq<byte>, ch: byte)
    requires Given(given0, out0, given, out)
    ensures Given(given0, out0, given + [ch], out + [ch])
  {
  }
}
