/** How many bits a block can take: never more than the memory left for them behind the block. */
module BlockSize {
  import opened Rotations
  import opened MoveToFront
  import opened MtfEncoder
  import opened Bits
  import opened CanonicalCodes
  import opened BlockFormat
  import opened BlockCodec
  import opened StreamFormat

  lemma {:induction false} UnarySize(j: nat)
    ensures |Unary(j)| == j + 1
  {
    if j > 0 { UnarySize(j - 1); }
  }

  lemma {:induction false} SelectorsSize(m: seq<nat>, i: nat)
    requires i <= |m| && forall k :: 0 <= k < |m| ==> m[k] < 6
    ensures |SelectorBits(m, i)| <= 6 * (|m| - i)
    decreases |m| - i
  {
    if i < |m| {
      UnarySize(m[i]);
      SelectorsSize(m, i + 1);
    }
  }

  lemma {:induction false} DeltaSize(curr: nat, target: nat)
    ensures |Delta(curr, target)| == 2 * (if curr < target then target - curr else curr - target) + 1
    decreases if curr < target then target - curr else curr - target
  {
    if curr < target {
      DeltaSize(curr + 1, target);
    } else if curr > target {
      DeltaSize(curr - 1, target);
    }
  }

  lemma {:induction false} DeltasSize(len: seq<byte>, curr: nat, i: nat)
    requires i <= |len| && LengthsIn(len, 1, LONGEST_CODE) && 1 <= curr <= LONGEST_CODE
    ensures |Deltas(len, curr, i)| <= 39 * (|len| - i)
    decreases |len| - i
  {
    if i < |len| {
      DeltaSize(curr, len[i]);
      DeltasSize(len, len[i], i + 1);
    }
  }

  lemma TableSize(len: seq<byte>)
    requires UsableLengths(len) && len != []
    ensures |Deltas(len, len[0], 0)| <= 10062
  {
    DeltasSize(len, len[0], 0);
  }

  lemma {:induction false} TablesSize(lens: seq<seq<byte>>, t: nat)
    requires t <= |lens| && forall k :: 0 <= k < |lens| ==> UsableLengths(lens[k])
    requires forall k :: 0 <= k < |lens| ==> lens[k] != []
    ensures |TablesBits(lens, t)| <= 10067 * (|lens| - t)
    decreases |lens| - t
  {
    hide Deltas, UsableLengths;
    if t < |lens| {
      assert UsableLengths(lens[t]) && lens[t] != [];
      TableSize(lens[t]);
      TablesSize(lens, t + 1);
    }
  }

  lemma {:induction false} CodesSize(lens: seq<seq<byte>>, sel: seq<byte>, syms: seq<nat>, k: nat)
    requires k <= |syms| && Codable(lens, sel, syms) && forall t :: 0 <= t < |lens| ==> UsableLengths(lens[t])
    ensures |CodesBits(lens, sel, syms, k)| <= 20 * (|syms| - k)
    decreases |syms| - k
  {
    hide BitsOf, First, Code;
    if k < |syms| {
      assert UsableLengths(LengthsOf(lens, sel, k));
      CodesSize(lens, sel, syms, k + 1);
    }
  }

  lemma {:induction false} FlagsSize(inUse: seq<bool>, i: nat)
    requires |inUse| == 256 && i <= 16
    ensures |FlagBits(inUse, i)| == 16 - i && |MemberBits(inUse, i)| <= 16 * (16 - i)
    decreases 16 - i
  {
    hide Any;
    if i < 16 { FlagsSize(inUse, i + 1); }
  }

  /** Everything after the header of a block. */
  lemma PlanSize(p: Plan)
    requires Sendable(p)
    ensures |PlanBits(p)| <= 168704 + 20 * |p.syms|
  {
    hide BitsOf, SelectorBits, TablesBits, CodesBits, FlagBits, MemberBits, UsableLengths, Codable;
    var m := SelectorRanks(|p.lens|, p.sel);
    forall k | 0 <= k < |m| ensures m[k] < 6 { assert m[k] == RankOf(|p.lens|, p.sel, k); }
    SelectorsSize(m, 0);
    assert forall k :: 0 <= k < |p.lens| ==> p.lens[k] != [] by { NoneEmpty(p.lens); }
    TablesSize(p.lens, 0);
    CodesSize(p.lens, p.sel, p.syms, 0);
    FlagsSize(p.inUse, 0);
  }

  lemma NoneEmpty(lens: seq<seq<byte>>)
    requires forall t :: 0 <= t < |lens| ==> UsableLengths(lens[t])
    ensures forall k :: 0 <= k < |lens| ==> lens[k] != []
  {
  }

  /** A whole block, of which the symbols are at most one more than the bytes. */
  lemma OneBlockSize(t: SentBlock)
    requires Describes(t.x, t.b, t.p, t.s)
    ensures Sendable(t.x.plan) && |OneBlock(t)| <= 168829 + 20 * |t.b|
  {
    hide BitsOf, BytesBits, CrcBytes, PlanBits, Sendable, IsRotationOrder, Symbols;
    DescribedPlan(t.x, t.b, t.p, t.s);
    PlanSize(t.x.plan);
    SymbolsSize(UsedBelow(t.x.plan.inUse, 256), t.s);
    CrcBytesSize(t.x.crc);
  }

  lemma CrcBytesSize(crc: bv32)
    ensures |CrcBytes(crc)| == 4
  {
  }

  lemma SymbolsSize(n: nat, s: seq<byte>)
    requires 0 < n <= 256 && AllBelow(s, n)
    ensures |Symbols(n, s)| <= |s| + 1
  {
  }

  /** The bytes of memory left for the bits of a block: the second array has four bytes for each
      byte a block may have, and for the overshoot, and the block is at its beginning. */
  function Room(capacity: nat, nblock: nat): int {
    4 * (capacity + 34) - nblock
  }

  lemma RoomIs(capacity: nat, nblock: nat)
    requires nblock <= capacity
    ensures Room(capacity, nblock) >= 136
  {
  }

  /** The bits kept from before, the stream header, the block and the trailer fit there. */
  lemma BlockFits(t: SentBlock, capacity: nat)
    requires Describes(t.x, t.b, t.p, t.s) && |t.b| <= capacity && capacity >= 100000
    ensures Sendable(t.x.plan) && 32 + 32 + |OneBlock(t)| + 88 <= 8 * Room(capacity, |t.b|)
  {
    OneBlockSize(t);
  }
}
