/** A whole compressed stream: header, blocks, trailer. */
module StreamFormat {
  import opened Rotations
  import opened Bits
  import opened BlockFormat
  import opened BlockCodec
  import opened BlockCrc
  import opened Gf2
  import opened WordBits
  import opened RunLength

  /** A block that was sent, with the sorted order and the numbered column it was sent by. */
  datatype SentBlock = SentBlock(x: BlockImage, b: Block, p: seq<nat>, s: seq<byte>)

  /** The checksum sent is that of the bytes the block stands for. */
  ghost predicate BlockOk(t: SentBlock, blockSize100k: nat) {
    && Describes(t.x, t.b, t.p, t.s) && |t.b| <= 100000 * blockSize100k
    && Complete(t.b) && t.x.crc == Finalised(Crc(Expand(t.b).out))
  }

  ghost predicate BlocksOk(blocks: seq<SentBlock>, blockSize100k: nat) {
    forall i :: 0 <= i < |blocks| ==> BlockOk(blocks[i], blockSize100k)
  }

  /** The bytes that the blocks stand for. */
  ghost function RawOf(blocks: seq<SentBlock>): seq<byte> {
    if blocks == [] then [] else RawOf(blocks[..|blocks| - 1]) + Expand(blocks[|blocks| - 1].b).out
  }

  function RotateLeft(c: bv32): bv32 { (c << 1) | (c >> 31) }

  ghost function CombinedCrc(blocks: seq<SentBlock>): bv32 {
    if blocks == [] then 0
    else Xor(RotateLeft(CombinedCrc(blocks[..|blocks| - 1])), blocks[|blocks| - 1].x.crc)
  }

  // ---- what the combined checksum is ----

  function TopDown(c: bv32): bv32 { c >> 31 }

  lemma TopMoved(c: bv32)
    ensures TopDown(c) == if TopSet(c) then 1 else 0
  {
  }

  lemma OrNothing(c: bv32)
    ensures Or(c, 0) == c
  {
  }

  lemma RotatedParts(c: bv32)
    ensures RotateLeft(c) == Or(Double(c), TopDown(c))
  {
  }

  lemma RotatedWord(c: bv32)
    ensures RotateLeft(c) == if TopSet(c) then Or(Double(c), 1) else Double(c)
  {
    hide *;
    RotatedParts(c);
    TopMoved(c);
    OrNothing(Double(c));
  }

  /** Every bit goes one place up, and the top one to the bottom. */
  lemma RotatedBit(c: bv32, i: nat)
    requires i < 32
    ensures BitAt(RotateLeft(c), i) == BitAt(c, (i - 1) % 32)
  {
    hide BitAt, Or, Mask, Double, TopSet, RotateLeft;
    RotatedWord(c);
    DoubleBit(c, i);
    EndBits(c);
    MaskNext(0);
    SetBit(Double(c), 0, i);
  }

  /** Bit i of what block k contributes: its checksum turned by as many places as blocks follow it. */
  ghost predicate Contributes(blocks: seq<SentBlock>, k: nat, i: nat)
    requires k < |blocks|
  {
    BitAt(blocks[k].x.crc, (i - (|blocks| - 1 - k)) % 32)
  }

  /** Whether an odd number of the first m blocks contribute bit i. */
  ghost predicate OddlyMany(blocks: seq<SentBlock>, m: nat, i: nat)
    requires m <= |blocks|
  {
    m > 0 && OddlyMany(blocks, m - 1, i) != Contributes(blocks, m - 1, i)
  }

  lemma Turned(i: int, n: int)
    ensures ((i - 1) % 32 - n) % 32 == (i - (n + 1)) % 32
  {
  }

  lemma {:induction false} OneBlockLater(blocks: seq<SentBlock>, m: nat, i: nat)
    requires m < |blocks| && i < 32
    ensures OddlyMany(blocks, m, i) == OddlyMany(blocks[..|blocks| - 1], m, (i - 1) % 32)
  {
    hide BitAt;
    if m > 0 {
      OneBlockLater(blocks, m - 1, i);
      Turned(i, |blocks| - 1 - m);
    }
  }

  /** The combined checksum in closed form: a bit is set when an odd number of blocks contribute it. */
  lemma {:induction false} CombinedBit(blocks: seq<SentBlock>, i: nat)
    requires i < 32
    ensures BitAt(CombinedCrc(blocks), i) == OddlyMany(blocks, |blocks|, i)
  {
    hide BitAt, RotateLeft, Xor;
    if blocks == [] {
      FullWord(i);
    } else {
      var n, before := |blocks|, blocks[..|blocks| - 1];
      CombinedBit(before, (i - 1) % 32);
      RotatedBit(CombinedCrc(before), i);
      XorBit(RotateLeft(CombinedCrc(before)), blocks[n - 1].x.crc, i);
      OneBlockLater(blocks, n - 1, i);
    }
  }

  function HeaderBits(blockSize100k: nat): seq<bool>
    requires 1 <= blockSize100k <= 9
  {
    BytesBits([0x42, 0x5a, 0x68, 0x30 + blockSize100k])
  }

  ghost function OneBlock(t: SentBlock): seq<bool>
    requires Sendable(t.x.plan)
  {
    BitsOf(0x31, 8) + BodyBits(t.x)
  }

  ghost predicate AllSendable(blocks: seq<SentBlock>) {
    forall i :: 0 <= i < |blocks| ==> Sendable(blocks[i].x.plan)
  }

  ghost function BlocksBits(blocks: seq<SentBlock>): seq<bool>
    requires AllSendable(blocks)
  {
    if blocks == [] then [] else BlocksBits(blocks[..|blocks| - 1]) + OneBlock(blocks[|blocks| - 1])
  }

  /** The bits of the blocks from the i-th on. */
  ghost function BlocksFrom(blocks: seq<SentBlock>, i: nat): seq<bool>
    requires AllSendable(blocks) && i <= |blocks|
    decreases |blocks| - i
  {
    if i == |blocks| then [] else OneBlock(blocks[i]) + BlocksFrom(blocks, i + 1)
  }

  const TRAILER_MAGIC: seq<byte> := [0x72, 0x45, 0x38, 0x50, 0x90]

  /** The digits of a byte string, four bits each, as a decimal number. */
  function Decimal(s: seq<byte>): nat {
    if s == [] then 0 else 100 * Decimal(s[..|s| - 1]) + Digits(s[|s| - 1])
  }

  function Digits(c: byte): nat { 10 * (c / 16) + c % 16 }

  lemma DecimalNext(s: seq<byte>, c: byte)
    ensures Decimal(s + [c]) == 100 * Decimal(s) + Digits(c)
  {
    assert (s + [c])[..|s|] == s;
  }

  lemma DecimalSix(a: byte, b: byte, c: byte, d: byte, e: byte, f: byte)
    ensures Decimal([] + [a] + [b] + [c] + [d] + [e] + [f]) ==
            100 * (100 * (100 * (100 * (100 * Digits(a) + Digits(b)) + Digits(c)) + Digits(d)) + Digits(e)) + Digits(f)
  {
    assert Decimal([]) == 0;
    hide Decimal, Digits;
    DecimalNext([], a);
    DecimalNext([] + [a], b);
    DecimalNext([] + [a] + [b], c);
    DecimalNext([] + [a] + [b] + [c], d);
    DecimalNext([] + [a] + [b] + [c] + [d], e);
    DecimalNext([] + [a] + [b] + [c] + [d] + [e], f);
  }

  /** A block begins with twelve digits of pi, and the trailer with those of its square root. */
  lemma MagicNumbers()
    ensures Decimal([0x31] + BLOCK_MAGIC) == 314159265359
    ensures Decimal([0x17] + TRAILER_MAGIC) == 177245385090
  {
    hide Decimal;
    PiDigits();
    RootDigits();
    assert [] + [0x31] + [0x41] + [0x59] + [0x26] + [0x53] + [0x59] == [0x31] + BLOCK_MAGIC;
    assert [] + [0x17] + [0x72] + [0x45] + [0x38] + [0x50] + [0x90] == [0x17] + TRAILER_MAGIC;
  }

  lemma PiDigits()
    ensures Decimal([] + [0x31] + [0x41] + [0x59] + [0x26] + [0x53] + [0x59]) == 314159265359
  {
    hide Decimal;
    DecimalSix(0x31, 0x41, 0x59, 0x26, 0x53, 0x59);
  }

  lemma RootDigits()
    ensures Decimal([] + [0x17] + [0x72] + [0x45] + [0x38] + [0x50] + [0x90]) == 177245385090
  {
    hide Decimal;
    DecimalSix(0x17, 0x72, 0x45, 0x38, 0x50, 0x90);
  }

  function TrailerBits(combined: bv32): seq<bool> {
    BitsOf(0x17, 8) + (BytesBits(TRAILER_MAGIC) + BytesBits(CrcBytes(combined)))
  }

  lemma SendableBlocks(blocks: seq<SentBlock>, blockSize100k: nat)
    requires BlocksOk(blocks, blockSize100k)
    ensures AllSendable(blocks)
  {
    forall i | 0 <= i < |blocks| ensures Sendable(blocks[i].x.plan) { assert BlockOk(blocks[i], blockSize100k); }
  }

  lemma {:induction false} BlocksSplit(blocks: seq<SentBlock>, i: nat)
    requires AllSendable(blocks) && i <= |blocks|
    ensures BlocksBits(blocks[..i]) + BlocksFrom(blocks, i) == BlocksBits(blocks)
    decreases |blocks| - i
  {
    hide OneBlock;
    if i == |blocks| {
      assert blocks[..i] == blocks;
    } else {
      BlocksSplit(blocks, i + 1);
      assert blocks[..i + 1][..i] == blocks[..i];
      Assoc(BlocksBits(blocks[..i]), OneBlock(blocks[i]), BlocksFrom(blocks, i + 1));
    }
  }

  /** Written in order or read in order, the blocks are the same bits. */
  lemma BlocksSame(blocks: seq<SentBlock>)
    requires AllSendable(blocks)
    ensures BlocksBits(blocks) == BlocksFrom(blocks, 0)
  {
    BlocksSplit(blocks, 0);
    assert blocks[..0] == [];
  }

  lemma RawNext(blocks: seq<SentBlock>, t: SentBlock)
    ensures RawOf(blocks + [t]) == RawOf(blocks) + Expand(t.b).out
    ensures CombinedCrc(blocks + [t]) == Xor(RotateLeft(CombinedCrc(blocks)), t.x.crc)
  {
    assert (blocks + [t])[..|blocks|] == blocks;
  }

  lemma BlocksNext(blocks: seq<SentBlock>, t: SentBlock)
    requires AllSendable(blocks) && Sendable(t.x.plan)
    ensures AllSendable(blocks + [t]) && BlocksBits(blocks + [t]) == BlocksBits(blocks) + OneBlock(t)
  {
    hide OneBlock, Sendable;
    assert (blocks + [t])[..|blocks|] == blocks;
  }
}
