/** The compressor as a state machine: bytes arrive in pieces of any size, output is taken in
    pieces of any size, and flushes may come in between. */
module CompressStream {
  import opened Rotations
  import opened MoveToFront
  import opened Bits
  import opened BitStream
  import opened BlockFormat
  import opened BlockCodec
  import opened BlockCrc
  import opened Gf2
  import opened RunLength
  import opened StreamFormat
  import opened BlockSize

  datatype Mode = Idle | Running | Flushing | Finishing
  datatype Phase = Input | Output
  datatype Action = Run | Flush | Finish
  datatype Status = RunOk | FlushOk | FinishOk | StreamEnd | SequenceError | ParamError

  // ---- the block being filled ----

  /** state_in_ch holds 256 while no run is pending. */
  const NO_CHAR: nat := 256

  function PendingRun(ch: nat, len: nat): seq<byte> {
    if ch < NO_CHAR then Repeat(ch, len) else []
  }

  /** Block content b, its checksum and its marks, and the pending run, stand for raw. */
  ghost predicate Filling(b: seq<byte>, ch: nat, len: nat, crc: bv32, inUse: seq<bool>, raw: seq<byte>) {
    && Complete(b) && |inUse| == 256 && crc == Crc(Expand(b).out)
    && (forall i :: 0 <= i < |b| ==> inUse[b[i]])
    && ch <= NO_CHAR && len <= 255
    && (if ch < NO_CHAR then len >= 1 && Apart(b, ch) else len == 0)
    && raw == Expand(b).out + PendingRun(ch, len)
  }

  function AllFalse(): (s: seq<bool>)
    ensures |s| == 256 && forall i :: 0 <= i < 256 ==> !s[i]
  {
    seq(256, _ => false)
  }

  lemma EmptyFilling()
    ensures Filling([], NO_CHAR, 0, 0xffff_ffff, AllFalse(), [])
  {
  }

  /** The checksum of a run is that of its bytes one by one. */
  function CrcRun(crc: bv32, ch: byte, len: nat): bv32 {
    if len == 0 then crc else Update(CrcRun(crc, ch, len - 1), ch)
  }

  lemma {:induction false} CrcOfRun(raw: seq<byte>, ch: byte, len: nat)
    ensures Crc(raw + Repeat(ch, len)) == CrcRun(Crc(raw), ch, len)
  {
    hide Update;
    if len == 0 {
      assert raw + Repeat(ch, len) == raw;
    } else {
      CrcOfRun(raw, ch, len - 1);
      assert (raw + Repeat(ch, len))[..|raw| + len - 1] == raw + Repeat(ch, len - 1);
    }
  }

  function MarkPair(inUse: seq<bool>, ch: byte, len: nat): (r: seq<bool>)
    requires |inUse| == 256 && len <= 255
    ensures |r| == 256
  {
    if len < 4 then inUse[ch := true] else inUse[ch := true][len - 4 := true]
  }

  /** The pending run put into the block: nothing pends, the same bytes are stood for, and
      any run but a continuation of a short one may follow. */
  lemma PairAdded(b: seq<byte>, ch: byte, len: nat, crc: bv32, inUse: seq<bool>, raw: seq<byte>)
    requires Filling(b, ch, len, crc, inUse, raw)
    ensures Filling(b + Pair(ch, len), NO_CHAR, 0, CrcRun(crc, ch, len), MarkPair(inUse, ch, len), raw)
    ensures forall c: byte :: c != ch || len == 255 ==> Apart(b + Pair(ch, len), c)
  {
    hide Expand, Crc, Update;
    PairExpands(b, ch, len);
    CrcOfRun(Expand(b).out, ch, len);
    MarksCover(b, ch, len, inUse);
  }

  lemma MarksCover(b: seq<byte>, ch: byte, len: nat, inUse: seq<bool>)
    requires |inUse| == 256 && len <= 255 && forall i :: 0 <= i < |b| ==> inUse[b[i]]
    ensures var b1, u1 := b + Pair(ch, len), MarkPair(inUse, ch, len); forall i :: 0 <= i < |b1| ==> u1[b1[i]]
  {
  }

  /** A new run begins. */
  lemma RunStarted(b: seq<byte>, ch: byte, crc: bv32, inUse: seq<bool>, raw: seq<byte>)
    requires Filling(b, NO_CHAR, 0, crc, inUse, raw) && Apart(b, ch)
    ensures Filling(b, ch, 1, crc, inUse, raw + [ch])
  {
    hide Expand, Crc;
    assert Repeat(ch, 1) == [ch];
  }

  /** The pending run grows by one. */
  lemma RunGrows(b: seq<byte>, ch: byte, len: nat, crc: bv32, inUse: seq<bool>, raw: seq<byte>)
    requires Filling(b, ch, len, crc, inUse, raw) && len < 255
    ensures Filling(b, ch, len + 1, crc, inUse, raw + [ch])
  {
    hide Expand, Crc;
    assert Repeat(ch, len + 1) == Repeat(ch, len) + [ch];
  }

  /** At the very start, or in a fresh block, any run may begin. */
  lemma ApartAtStart(ch: byte)
    ensures Apart([], ch)
  {
  }

  /** A finished block leaves the pending run to a fresh one. */
  lemma CarryOver(b: seq<byte>, ch: nat, len: nat, crc: bv32, inUse: seq<bool>, raw: seq<byte>)
    requires Filling(b, ch, len, crc, inUse, raw)
    ensures Filling([], ch, len, 0xffff_ffff, AllFalse(), PendingRun(ch, len))
    ensures raw == Expand(b).out + PendingRun(ch, len)
  {
    if ch < NO_CHAR { ApartAtStart(ch); }
    assert Expand([]).out + PendingRun(ch, len) == PendingRun(ch, len);
  }

  lemma FillingSays(b: seq<byte>, ch: nat, len: nat, crc: bv32, inUse: seq<bool>, raw: seq<byte>)
    requires Filling(b, ch, len, crc, inUse, raw)
    ensures |inUse| == 256 && ch <= NO_CHAR && len <= 255 && (ch < NO_CHAR ==> len >= 1) && (ch == NO_CHAR ==> len == 0)
    ensures Complete(b) && crc == Crc(Expand(b).out) && forall i :: 0 <= i < |b| ==> inUse[b[i]]
    ensures ch == NO_CHAR ==> raw == Expand(b).out
  {
  }

  // ---- what has been written ----

  /** Everything sent so far; done means that the trailer is out and the last byte padded. */
  ghost predicate Sent(written: seq<bool>, blockSize100k: nat, started: bool, blocks: seq<SentBlock>, done: bool) {
    && 1 <= blockSize100k <= 9 && AllSendable(blocks)
    && (!started ==> written == [] && blocks == [])
    && (started ==> exists padding: nat ::
          padding < 8 && (!done ==> padding == 0) && written == StreamBits(blockSize100k, blocks, done, padding))
  }

  ghost function StreamBits(blockSize100k: nat, blocks: seq<SentBlock>, done: bool, padding: nat): seq<bool>
    requires 1 <= blockSize100k <= 9 && AllSendable(blocks)
  {
    HeaderBits(blockSize100k) + BlocksBits(blocks)
    + (if done then TrailerBits(CombinedCrc(blocks)) + seq(padding, _ => false) else [])
  }

  lemma NothingSent(blockSize100k: nat)
    requires 1 <= blockSize100k <= 9
    ensures Sent([], blockSize100k, false, [], false)
  {
  }

  lemma HeaderSent(blockSize100k: nat)
    requires 1 <= blockSize100k <= 9
    ensures Sent(HeaderBits(blockSize100k), blockSize100k, true, [], false)
  {
    assert HeaderBits(blockSize100k) == StreamBits(blockSize100k, [], false, 0);
  }

  lemma BlockSent(written: seq<bool>, blockSize100k: nat, blocks: seq<SentBlock>, t: SentBlock)
    requires Sent(written, blockSize100k, true, blocks, false) && Sendable(t.x.plan)
    ensures Sent(written + OneBlock(t), blockSize100k, true, blocks + [t], false)
  {
    hide OneBlock, Sendable, HeaderBits;
    BlocksNext(blocks, t);
    var padding: nat :| padding == 0 && written == StreamBits(blockSize100k, blocks, false, padding);
    assert written + OneBlock(t) == StreamBits(blockSize100k, blocks + [t], false, padding);
  }

  lemma TrailerSent(written: seq<bool>, blockSize100k: nat, blocks: seq<SentBlock>, padding: nat)
    requires Sent(written, blockSize100k, true, blocks, false) && padding < 8
    ensures Sent(written + TrailerBits(CombinedCrc(blocks)) + seq(padding, _ => false), blockSize100k, true, blocks,
                 true)
  {
    hide HeaderBits, TrailerBits, BlocksBits, Sendable;
    var none: nat :| none == 0 && written == StreamBits(blockSize100k, blocks, false, none);
    assert written + TrailerBits(CombinedCrc(blocks)) + seq(padding, _ => false) ==
             StreamBits(blockSize100k, blocks, true, padding);
  }

  // ---- the state ----

  /** Copies of the byte, and from four on a count. */
  method StorePair(block: array<byte>, n: nat, ch: byte, len: nat) returns (n1: nat)
    requires 1 <= len <= 255 && n + 5 <= block.Length
    modifies block
    ensures n1 <= n + 5 && block[..n1] == old(block[..n]) + Pair(ch, len)
  {
    if len == 1 {
      block[n] := ch;
      n1 := n + 1;
    } else if len == 2 {
      block[n], block[n + 1] := ch, ch;
      n1 := n + 2;
    } else if len == 3 {
      block[n], block[n + 1], block[n + 2] := ch, ch, ch;
      n1 := n + 3;
    } else {
      block[n], block[n + 1], block[n + 2], block[n + 3] := ch, ch, ch, ch;
      block[n + 4] := len - 4;
      n1 := n + 5;
    }
  }

  /** The caller's side: input not yet taken, room for output, and all output so far. */
  class Strm {
    var available: seq<byte>
    var availOut: nat
    var out: seq<byte>

    constructor ()
      ensures available == [] && out == []
    {
      available, availOut, out := [], 0, [];
    }
  }

  class EState {
    const strm: Strm
    const w: BitWriter
    const blockSize100k: nat
    const workFactor: nat
    const nblockMAX: nat
    const block: array<byte>
    var mode: Mode
    var phase: Phase
    var availInExpect: nat
    var nblock: nat
    var inUse: seq<bool>
    var stateInCh: nat
    var stateInLen: nat
    var blockCRC: bv32
    var combinedCRC: bv32
    var blockNo: nat
    var stateOutPos: nat
    /** every byte taken from the caller */
    ghost var consumed: seq<byte>
    /** the blocks sent */
    ghost var blocks: seq<SentBlock>
    /** the trailer has been sent */
    ghost var done: bool

    /** Sizes and the parts that do not depend on the bytes. */
    ghost predicate Shaped()
      reads this, w
    {
      && w.Valid() && 1 <= blockSize100k <= 9 && nblockMAX == 100000 * blockSize100k - 19
      && block.Length == 100000 * blockSize100k && nblock <= block.Length
      && BlocksOk(blocks, blockSize100k) && combinedCRC == CombinedCrc(blocks)
      && blockNo >= 1 && stateOutPos <= |w.zbits|
    }

    /** The bytes taken, but for those of finished blocks. */
    ghost predicate Raw(raw: seq<byte>)
      reads this
    {
      consumed == RawOf(blocks) + raw
    }

    /** In the input phase a block is being filled; in the output phase it has been sent. */
    ghost predicate Holds(raw: seq<byte>)
      reads this, block
    {
      && Raw(raw)
      && if phase == Input then
        nblock <= block.Length && Filling(block[..nblock], stateInCh, stateInLen, blockCRC, inUse, raw)
         else Filling([], stateInCh, stateInLen, 0xffff_ffff, AllFalse(), raw)
    }

    ghost predicate Empty()
      reads this
    {
      stateInCh == NO_CHAR
    }

    /** How the mode, the phase and the output fit together. */
    ghost predicate Steady()
      reads this, w
    {
      && Sent(w.Written(), blockSize100k, blockNo >= 2 || phase == Output, blocks, done)
      && (phase == Input ==> nblock < nblockMAX && (Empty() ==> nblock == 0) && stateOutPos == 0 && w.zbits == [])
      && (done ==>
            phase == Output && Empty() && w.bsLive == 0 && (mode == Finishing || mode == Idle) && availInExpect == 0)
      && (phase == Output && Empty() && !done ==> mode == Flushing)
      && (mode == Idle ==> done)
    }

    /** What every call of the interface keeps. */
    ghost predicate Valid()
      reads this, strm`out, w, block
    {
      && Shaped() && Steady() && strm.out == w.gone + w.zbits[..stateOutPos]
      && exists raw :: Holds(raw)
    }

    constructor (strm: Strm, blockSize100k: nat, workFactor: nat)
      requires 1 <= blockSize100k <= 9 && workFactor <= 250 && strm.out == []
      ensures Valid() && this.strm == strm && this.blockSize100k == blockSize100k
      ensures mode == Running && consumed == [] && blocks == [] && fresh(w) && fresh(block)
    {
      this.strm, this.blockSize100k, this.nblockMAX := strm, blockSize100k, 100000 * blockSize100k - 19;
      this.workFactor := if workFactor == 0 then 30 else workFactor;
      w := new BitWriter();
      block := new byte[100000 * blockSize100k];
      mode, phase, availInExpect := Running, Input, 0;
      nblock, inUse, blockNo, stateOutPos := 0, AllFalse(), 1, 0;
      stateInCh, stateInLen, blockCRC, combinedCRC := NO_CHAR, 0, 0xffff_ffff, 0;
      consumed, blocks, done := [], [], false;
      new;
      EmptyFilling();
      NothingSent(blockSize100k);
      assert block[..nblock] == [] && [] + consumed == consumed;
      assert Holds(consumed);
    }

    method PrepareNewBlock(ghost raw: seq<byte>)
      requires Shaped() && phase == Output && Holds(raw) && stateOutPos == |w.zbits|
      modifies this`nblock, this`blockCRC, this`inUse, this`blockNo, this`phase, this`stateOutPos, w`zbits, w`gone
      ensures Shaped() && phase == Input && Holds(raw) && nblock == 0 && blockNo == old(blockNo) + 1
      ensures w.Written() == old(w.Written()) && stateOutPos == 0 && w.zbits == [] && w.gone == old(w.gone + w.zbits)
    {
      hide Filling, BlocksOk, CombinedCrc, TopHolds, BytesBits, BitsOf, RawOf, Crc, Expand;
      nblock := 0;
      w.Restart();
      stateOutPos := 0;
      blockCRC := 0xffff_ffff;
      inUse := AllFalse();
      blockNo := blockNo + 1;
      phase := Input;
      assert block[..nblock] == [];
    }

    function IsEmptyRL(): (r: bool)
      reads this
      ensures Shaped0() ==> r == (stateInCh == NO_CHAR)
    {
      !(stateInCh < NO_CHAR && stateInLen > 0)
    }

    ghost predicate Shaped0()
      reads this
    {
      stateInCh <= NO_CHAR && (stateInCh < NO_CHAR ==> stateInLen >= 1)
    }

    /** The pending run goes into the block: at most five bytes. */
    method AddPairToBlock(ghost raw: seq<byte>)
      requires Shaped() && phase == Input && Holds(raw) && stateInCh < NO_CHAR && nblock + 5 <= block.Length
      modifies this`nblock, this`blockCRC, this`inUse, block
      ensures nblock <= old(nblock) + 5 && nblock <= block.Length
      ensures Filling(block[..nblock], NO_CHAR, 0, blockCRC, inUse, raw)
      ensures forall c: byte :: c != stateInCh || stateInLen == 255 ==> Apart(block[..nblock], c)
    {
      hide Filling, Apart, Crc, Update, BlocksOk, CombinedCrc, TopHolds, BytesBits, BitsOf, RawOf, Finalised;
      var ch: byte := stateInCh;
      ghost var b, len, crc0, u0 := block[..nblock], stateInLen, blockCRC, inUse;
      FillingSays(b, ch, len, crc0, u0, raw);
      for i := 0 to stateInLen
        invariant blockCRC == CrcRun(crc0, ch, i)
        modifies this`blockCRC
      {
        blockCRC := Update(blockCRC, ch);
      }
      inUse := inUse[ch := true];
      if stateInLen >= 4 { inUse := inUse[stateInLen - 4 := true]; }
      nblock := StorePair(block, nblock, ch, stateInLen);
      assert block[..nblock] == b + Pair(ch, len);
      assert inUse == MarkPair(u0, ch, len) && blockCRC == CrcRun(crc0, ch, len);
      PairAdded(b, ch, len, crc0, u0, raw);
    }

    /** The pending run is a single byte, which goes into the block alone. */
    method AddSingle(ghost raw: seq<byte>)
      requires Shaped() && phase == Input && Holds(raw) && stateInCh < NO_CHAR && stateInLen == 1
               && nblock < block.Length
      modifies this`nblock, this`blockCRC, this`inUse, block
      ensures nblock == old(nblock) + 1
      ensures Filling(block[..nblock], NO_CHAR, 0, blockCRC, inUse, raw)
      ensures forall c: byte :: c != stateInCh ==> Apart(block[..nblock], c)
    {
      hide Filling, Apart, Crc, Update, BlocksOk, CombinedCrc, TopHolds, BytesBits, BitsOf, RawOf, Finalised;
      var ch: byte := stateInCh;
      ghost var b, crc0, u0 := block[..nblock], blockCRC, inUse;
      FillingSays(b, ch, 1, crc0, u0, raw);
      blockCRC := Update(blockCRC, ch);
      inUse := inUse[ch := true];
      block[nblock] := ch;
      nblock := nblock + 1;
      assert CrcRun(crc0, ch, 1) == Update(CrcRun(crc0, ch, 0), ch);
      assert block[..nblock] == b + Pair(ch, 1);
      PairAdded(b, ch, 1, crc0, u0, raw);
    }

    method FlushRL(ghost raw: seq<byte>)
      requires Shaped() && phase == Input && Holds(raw) && nblock + 5 <= block.Length
      modifies this`nblock, this`blockCRC, this`inUse, this`stateInCh, this`stateInLen, block
      ensures Shaped() && Holds(raw) && Empty() && nblock <= old(nblock) + 5
    {
      hide Filling, Apart, BlocksOk, CombinedCrc, TopHolds, BytesBits, BitsOf, RawOf, Crc, Expand;
      FillingSays(block[..nblock], stateInCh, stateInLen, blockCRC, inUse, raw);
      if stateInCh < NO_CHAR { AddPairToBlock(raw); }
      stateInCh := NO_CHAR;
      stateInLen := 0;
    }

    /** One more byte of input: it joins the pending run or replaces it. */
    method AddCharToBlock(zchh: byte, ghost raw: seq<byte>)
      requires Shaped() && phase == Input && Holds(raw) && nblock < nblockMAX && (Empty() ==> nblock == 0)
      modifies this`nblock, this`blockCRC, this`inUse, this`stateInCh, this`stateInLen, this`consumed, block
      ensures Shaped() && Holds(raw + [zchh]) && !Empty() && nblock <= old(nblock) + 5 && Shaped0()
      ensures consumed == old(consumed) + [zchh]
    {
      hide Filling, Apart, BlocksOk, CombinedCrc, TopHolds, BytesBits, BitsOf, RawOf, Crc, Expand;
      FillingSays(block[..nblock], stateInCh, stateInLen, blockCRC, inUse, raw);
      ghost var consumed0 := consumed;
      if zchh != stateInCh && stateInLen == 1 {
        AddSingle(raw);
        stateInCh := zchh;
        RunStarted(block[..nblock], zchh, blockCRC, inUse, raw);
      } else if zchh != stateInCh || stateInLen == 255 {
        if stateInCh < NO_CHAR {
          AddPairToBlock(raw);
        } else {
          ApartAtStart(zchh);
          assert block[..nblock] == [];
        }
        stateInCh := zchh;
        stateInLen := 1;
        RunStarted(block[..nblock], zchh, blockCRC, inUse, raw);
      } else {
        RunGrows(block[..nblock], zchh, stateInLen, blockCRC, inUse, raw);
        stateInLen := stateInLen + 1;
      }
      consumed := consumed + [zchh];
      assert consumed == RawOf(blocks) + (raw + [zchh]);
    }

    /** The stream header, the block if there is one, and the trailer, each where it belongs.
        What pends stays for the next block, and the output phase begins. */
    method CompressBlock(isLast: bool, ghost raw: seq<byte>) returns (ghost raw1: seq<byte>)
      requires Shaped() && phase == Input && Holds(raw) && !done && (isLast ==> Empty()) && stateOutPos == 0
               && w.zbits == []
      requires Sent(w.Written(), blockSize100k, blockNo >= 2, blocks, false)
      modifies this`blockCRC, this`combinedCRC, this`phase, this`blocks, this`done
      modifies w`zbits, w`bsBuff, w`bsLive, w`top
      ensures Shaped() && phase == Output && Holds(raw1) && done == isLast && (isLast ==> w.bsLive == 0)
      ensures Sent(w.Written(), blockSize100k, true, blocks, isLast)
      ensures |w.zbits| <= Room(block.Length, nblock)
    {
      hide Filling, BlocksOk, CombinedCrc, TopHolds, BytesBits, BitsOf, RawOf, Crc, Expand, Sent, Complete,
           PendingRun, Finalised, RotateLeft, Xor;
      ghost var b := block[..nblock];
      FillingSays(b, stateInCh, stateInLen, blockCRC, inUse, raw);
      CarryOver(b, stateInCh, stateInLen, blockCRC, inUse, raw);
      raw1 := PendingRun(stateInCh, stateInLen);
      RawSplit(RawOf(blocks), Expand(b).out, raw1);
      if nblock == 0 { ExpandNothing(b); }
      if nblock > 0 {
        blockCRC := Finalised(blockCRC);
        combinedCRC := Xor(RotateLeft(combinedCRC), blockCRC);
      }
      SendParts(isLast, b);
      phase := Output;
    }

    /** The stream header before the first block, the block if it has any bytes, and the trailer
        after the last. */
    method SendParts(isLast: bool, ghost b: Block)
      requires w.Valid() && nblock <= block.Length <= 900000 && b == block[..nblock] && |inUse| == 256
      requires 1 <= blockSize100k <= 9 && block.Length == 100000 * blockSize100k && w.zbits == []
      requires forall i :: 0 <= i < nblock ==> inUse[b[i]]
      requires blockNo >= 1 && Sent(w.Written(), blockSize100k, blockNo >= 2, blocks, false)
      requires BlocksOk(blocks, blockSize100k)
      requires nblock > 0 ==> Complete(b) && blockCRC == Finalised(Crc(Expand(b).out))
      requires combinedCRC == if nblock > 0 then Xor(RotateLeft(CombinedCrc(blocks)), blockCRC) else CombinedCrc(blocks)
      modifies w`zbits, w`bsBuff, w`bsLive, w`top, this`blocks, this`done
      ensures w.Valid() && Sent(w.Written(), blockSize100k, true, blocks, isLast) && BlocksOk(blocks, blockSize100k)
      ensures combinedCRC == CombinedCrc(blocks) && |w.zbits| <= Room(block.Length, nblock)
      ensures done == (isLast || old(done)) && (isLast ==> w.bsLive == 0)
      ensures RawOf(blocks) == RawOf(old(blocks)) + (if nblock > 0 then Expand(b).out else [])
    {
      hide *;
      w.WrittenSize();
      RoomIs(block.Length, nblock);
      if blockNo == 1 {
        SendStreamHeader();
      }
      if nblock > 0 {
        SendOne(b);
      }
      if isLast {
        SendTrailer();
      }
      w.WrittenSize();
    }

    method SendStreamHeader()
      requires w.Valid() && 1 <= blockSize100k <= 9 && Sent(w.Written(), blockSize100k, false, blocks, false)
      modifies w`zbits, w`bsBuff, w`bsLive, w`top
      ensures w.Valid() && Sent(w.Written(), blockSize100k, true, blocks, false)
      ensures |w.Written()| == |old(w.Written())| + 32
    {
      hide TopHolds, BytesBits, BitsOf;
      HeaderSent(blockSize100k);
      PutBytes(w, [0x42, 0x5a, 0x68, 0x30 + blockSize100k]);
      assert w.Written() == HeaderBits(blockSize100k);
    }

    method SendTrailer()
      requires w.Valid() && Sent(w.Written(), blockSize100k, true, blocks, false) && combinedCRC == CombinedCrc(blocks)
      modifies w`zbits, w`bsBuff, w`bsLive, w`top, this`done
      ensures w.Valid() && done && w.bsLive == 0 && Sent(w.Written(), blockSize100k, true, blocks, true)
      ensures |w.Written()| <= |old(w.Written())| + 88
    {
      hide TopHolds, BytesBits, BitsOf, CombinedCrc, Sent, CrcBytes;
      ghost var w0 := w.Written();
      PutUChar(w, 0x17);
      PutBytes(w, TRAILER_MAGIC);
      PutBytes(w, CrcBytes(combinedCRC));
      Assoc(w0 + BitsOf(0x17, 8), BytesBits(TRAILER_MAGIC), BytesBits(CrcBytes(combinedCRC)));
      Assoc(w0, BitsOf(0x17, 8), BytesBits(TRAILER_MAGIC) + BytesBits(CrcBytes(combinedCRC)));
      assert w.Written() == w0 + TrailerBits(combinedCRC);
      ghost var padding := w.FinishWrite();
      TrailerSent(w0, blockSize100k, blocks, padding);
      NothingLive(w.top, w.gone + w.zbits);
      done := true;
    }

    /** The block itself: sorted, coded, and recorded as sent. */
    method SendOne(ghost b: Block)
      requires w.Valid() && 0 < nblock <= block.Length <= 900000 && b == block[..nblock] && |inUse| == 256
      requires block.Length == 100000 * blockSize100k
      requires forall i :: 0 <= i < nblock ==> inUse[b[i]]
      requires Sent(w.Written(), blockSize100k, true, blocks, false) && BlocksOk(blocks, blockSize100k)
      requires Complete(b) && blockCRC == Finalised(Crc(Expand(b).out))
      requires combinedCRC == Xor(RotateLeft(CombinedCrc(blocks)), blockCRC)
      modifies w`zbits, w`bsBuff, w`bsLive, w`top, this`blocks
      ensures w.Valid() && Sent(w.Written(), blockSize100k, true, blocks, false) && BlocksOk(blocks, blockSize100k)
      ensures combinedCRC == CombinedCrc(blocks) && RawOf(blocks) == RawOf(old(blocks)) + Expand(b).out
      ensures |w.Written()| + 152 <= |old(w.Written())| + 8 * Room(block.Length, nblock)
    {
      hide TopHolds, BytesBits, BitsOf, CombinedCrc, Sent, BodyBits, Describes, Sendable, Crc, Expand, RawOf, Complete;
      var blk := new byte[nblock];
      for i := 0 to nblock
        modifies blk
        invariant forall k :: 0 <= k < i ==> blk[k] == block[k]
      {
        blk[i] := block[i];
      }
      assert blk[..] == b;
      ghost var x, p, s := SendBlock(w, blk, inUse, blockCRC, workFactor);
      ghost var t := SentBlock(x, b, p, s);
      DescribedPlan(x, b, p, s);
      BlockSent(old(w.Written()), blockSize100k, blocks, t);
      RawNext(blocks, t);
      BlockFits(t, block.Length);
      assert BlockOk(t, blockSize100k);
      blocks := blocks + [t];
    }

    /** Takes input until there is none, the block is full, or a flush has all it asked for. */
    method CopyInputUntilStop(ghost raw0: seq<byte>) returns (progress: bool, ghost raw: seq<byte>)
      requires Shaped() && phase == Input && Holds(raw0) && nblock < nblockMAX && (Empty() ==> nblock == 0)
      requires mode != Running ==> availInExpect == |strm.available|
      modifies this`nblock, this`blockCRC, this`inUse, this`stateInCh, this`stateInLen, this`consumed,
               this`availInExpect
      modifies block, strm`available
      ensures Shaped() && Holds(raw) && Shaped0() && nblock < nblockMAX + 5
      ensures Taken(old(consumed), old(strm.available), consumed, strm.available)
      ensures progress <==> |strm.available| < |old(strm.available)|
      ensures mode != Running ==> availInExpect == |strm.available|
      ensures strm.available == [] || nblock >= nblockMAX
      ensures if progress then !Empty() else nblock == old(nblock) && stateInCh == old(stateInCh)
    {
      hide Filling, BlocksOk, CombinedCrc, TopHolds, BytesBits, BitsOf, RawOf, Taken;
      progress, raw := false, raw0;
      FillingSays(block[..nblock], stateInCh, stateInLen, blockCRC, inUse, raw);
      NoneTaken(consumed, strm.available);
      while true
        invariant Shaped() && Holds(raw) && Shaped0() && nblock < nblockMAX + 5
        invariant nblock < nblockMAX ==> Empty() ==> nblock == 0
        invariant Taken(old(consumed), old(strm.available), consumed, strm.available)
        invariant progress <==> |strm.available| < |old(strm.available)|
        invariant |strm.available| <= |old(strm.available)|
        invariant mode != Running ==> availInExpect == |strm.available|
        invariant if progress then !Empty() else nblock == old(nblock) && stateInCh == old(stateInCh)
        decreases |strm.available|
      {
        if nblock >= nblockMAX { break; }
        if |strm.available| == 0 { break; }
        if mode != Running && availInExpect == 0 { break; }
        progress := true;
        ghost var avail, c0 := strm.available, consumed;
        AddCharToBlock(strm.available[0], raw);
        raw := raw + [avail[0]];
        OneTaken(old(consumed), old(strm.available), c0, avail);
        strm.available := strm.available[1..];
        if mode != Running { availInExpect := availInExpect - 1; }
      }
    }

    /** Hands over bytes until there is no room or none are left. */
    method CopyOutputUntilStop() returns (progress: bool)
      requires stateOutPos <= |w.zbits| && strm.out == w.gone + w.zbits[..stateOutPos]
      modifies this`stateOutPos, strm`availOut, strm`out
      ensures stateOutPos <= |w.zbits| && strm.out == w.gone + w.zbits[..stateOutPos]
      ensures old(strm.out) <= strm.out
      ensures |strm.out| + strm.availOut == old(|strm.out| + strm.availOut)
      ensures progress <==> old(stateOutPos) < stateOutPos
      ensures stateOutPos == |w.zbits| || strm.availOut == 0
    {
      progress := false;
      while true
        invariant old(stateOutPos) <= stateOutPos <= |w.zbits| && strm.out == w.gone + w.zbits[..stateOutPos]
        invariant old(strm.out) <= strm.out
        invariant |strm.out| + strm.availOut == old(|strm.out| + strm.availOut)
        invariant progress <==> old(stateOutPos) < stateOutPos
        decreases strm.availOut
      {
        if strm.availOut == 0 { break; }
        if stateOutPos >= |w.zbits| { break; }
        progress := true;
        assert w.zbits[..stateOutPos + 1] == w.zbits[..stateOutPos] + [w.zbits[stateOutPos]];
        strm.out := strm.out + [w.zbits[stateOutPos]];
        stateOutPos := stateOutPos + 1;
        strm.availOut := strm.availOut - 1;
      }
    }

    lemma HoldsShape(raw: seq<byte>)
      requires Shaped() && Steady() && Holds(raw)
      ensures Shaped0()
    {
      if phase == Input {
        FillingSays(block[..nblock], stateInCh, stateInLen, blockCRC, inUse, raw);
      } else {
        FillingSays([], stateInCh, stateInLen, 0xffff_ffff, AllFalse(), raw);
      }
    }

    lemma StreamComplete(raw: seq<byte>)
      requires Shaped() && Steady() && Shaped0() && strm.out == w.gone + w.zbits[..stateOutPos] && Holds(raw)
      requires done && stateOutPos == |w.zbits|
      ensures CompleteStream(strm.out, blockSize100k, blocks) && RawOf(blocks) == consumed
    {
      hide BlocksOk, TopHolds, Crc, RawOf, StreamBits, CombinedCrc;
      SendableBlocks(blocks, blockSize100k);
      CarryOver([], stateInCh, stateInLen, 0xffff_ffff, AllFalse(), raw);
      ExpandNothing([]);
      assert raw == [];
      assert w.zbits[..stateOutPos] == w.zbits;
      NothingLive(w.top, strm.out);
      assert w.Written() == BytesBits(strm.out);
    }

    /** With nothing pending, all bytes taken are in blocks sent. */
    lemma NothingHeld(raw: seq<byte>)
      requires Shaped() && Steady() && Holds(raw) && phase == Input && Empty()
      ensures RawOf(blocks) == consumed
    {
      FillingSays(block[..nblock], stateInCh, stateInLen, blockCRC, inUse, raw);
      ExpandNothing(block[..nblock]);
    }

    /** What holds between two steps of the loop below. */
    ghost predicate Looping(raw: seq<byte>)
      reads this, strm, w, block
    {
      && Shaped() && Steady() && Shaped0() && strm.out == w.gone + w.zbits[..stateOutPos] && Holds(raw)
      && mode != Idle && (mode != Running ==> availInExpect == |strm.available|)
    }

    /** The stream has come to its end. */
    ghost predicate GivenOut()
      reads this, w
    {
      mode == Finishing && availInExpect == 0 && Empty() && stateOutPos == |w.zbits|
    }

    /** One round of the output phase: all of the block's bytes go out, or there is no room;
        when they have, the next block begins, unless the stream is finished. */
    method OutputStep(ghost raw: seq<byte>) returns (progress: bool, stop: bool)
      requires Looping(raw) && phase == Output
      modifies this`nblock, this`blockCRC, this`inUse, this`blockNo, this`phase, this`stateOutPos
      modifies strm`availOut, strm`out, w`zbits, w`gone
      ensures Looping(raw) && old(strm.out) <= strm.out
      ensures |strm.out| + strm.availOut == old(|strm.out| + strm.availOut)
      ensures !stop ==> phase == Input && (Empty() && mode != Running ==> availInExpect > 0)
      ensures progress <==> |old(strm.out)| < |strm.out|
      ensures stop && phase == Output ==> (stateOutPos < |w.zbits| && strm.availOut == 0) || GivenOut()
      ensures stop && phase == Input ==> mode == Flushing && availInExpect == 0 && Empty()
    {
      hide Filling, BlocksOk, CombinedCrc, TopHolds, BytesBits, BitsOf, RawOf, Sent;
      progress := CopyOutputUntilStop();
      if stateOutPos < |w.zbits| { return progress, true; }
      if mode == Finishing && availInExpect == 0 && IsEmptyRL() { return progress, true; }
      assert w.zbits[..stateOutPos] == w.zbits;
      PrepareNewBlock(raw);
      assert w.zbits[..stateOutPos] == [];
      stop := mode == Flushing && availInExpect == 0 && IsEmptyRL();
    }

    /** One round of the input phase: input is taken, and a block goes out when it is full or
        when a flush or the end of the stream has been reached. */
    method InputStep(ghost raw0: seq<byte>) returns (progress: bool, stop: bool, ghost raw: seq<byte>)
      requires Looping(raw0) && phase == Input
      modifies this`nblock, this`blockCRC, this`inUse, this`stateInCh, this`stateInLen, this`consumed,
               this`availInExpect
      modifies this`combinedCRC, this`phase, this`blocks, this`done, block, strm`available
      modifies w`zbits, w`bsBuff, w`bsLive, w`top
      ensures Looping(raw) && Taken(old(consumed), old(strm.available), consumed, strm.available)
      ensures |strm.available| <= |old(strm.available)|
      ensures stop ==> phase == Input && mode == Running && strm.available == []
      ensures !stop ==> phase == Output
      ensures progress <==> |strm.available| < |old(strm.available)|
      ensures !stop && |strm.available| == |old(strm.available)| ==> mode != Running && availInExpect == 0 && Empty()
    {
      hide Filling, BlocksOk, CombinedCrc, TopHolds, BytesBits, BitsOf, RawOf, Sent, Taken;
      stop := false;
      progress, raw := CopyInputUntilStop(raw0);
      if mode != Running && availInExpect == 0 {
        FlushRL(raw);
        raw := CompressBlock(mode == Finishing, raw);
      } else if nblock >= nblockMAX {
        raw := CompressBlock(false, raw);
      } else if |strm.available| == 0 {
        stop := true;
      }
    }

    method HandleCompress(ghost raw0: seq<byte>) returns (progress: bool, ghost raw: seq<byte>)
      requires Looping(raw0)
      modifies this, strm, block, w
      ensures Looping(raw) && mode == old(mode) && Taken(old(consumed), old(strm.available), consumed, strm.available)
      ensures old(strm.out) <= strm.out
      ensures |strm.out| + strm.availOut == old(|strm.out| + strm.availOut)
      ensures progress <==> Moved(old(strm.available), old(strm.out), strm.available, strm.out)
      ensures Paused()
    {
      hide Looping, Taken;
      progress, raw := false, raw0;
      NoneTaken(consumed, strm.available);
      var stop := false;
      while true
        invariant Looping(raw) && mode == old(mode)
        invariant Taken(old(consumed), old(strm.available), consumed, strm.available)
        invariant old(strm.out) <= strm.out
        invariant |strm.out| + strm.availOut == old(|strm.out| + strm.availOut)
                  && |strm.available| <= |old(strm.available)|
        invariant progress <==> Moved(old(strm.available), old(strm.out), strm.available, strm.out)
        decreases |strm.available|, Rank()
      {
        if phase == Output {
          var p;
          p, stop := OutputStep(raw);
          progress := progress || p;
          if stop { break; }
        }
        ghost var c0, a0 := consumed, strm.available;
        var q;
        q, stop, raw := InputStep(raw);
        TakenMore(old(consumed), old(strm.available), c0, a0, consumed, strm.available);
        progress := progress || q;
        if stop { break; }
      }
    }

    /** Bounds the rounds that take no input. */
    ghost function Rank(): nat
      reads this
    {
      if phase == Input then 1 else if Empty() && mode != Running && availInExpect == 0 then 0 else 2
    }

    /** A flush or the end of the stream is asked for: it covers the input now available. */
    method Enter(m: Mode, ghost raw: seq<byte>)
      requires Shaped() && Steady() && Shaped0() && strm.out == w.gone + w.zbits[..stateOutPos] && Holds(raw)
      requires mode == Running && (m == Flushing || m == Finishing)
      modifies this`mode, this`availInExpect
      ensures Looping(raw) && mode == m
    {
      hide BlocksOk, RawOf, TopHolds, BytesBits, BitsOf, Filling, CombinedCrc, Sent;
      availInExpect := |strm.available|;
      mode := m;
    }

    /** The flush, or the stream, has been given out entirely. */
    method Leave(m: Mode, ghost raw: seq<byte>)
      requires Looping(raw)
               && (if mode == Flushing then m == Running && phase == Input
                   else mode == Finishing && done && m == Idle)
      modifies this`mode
      ensures Shaped() && Steady() && Holds(raw) && mode == m
    {
      hide BlocksOk, RawOf, TopHolds, BytesBits, BitsOf, Filling, CombinedCrc, Sent;
      mode := m;
    }

    /** How the loop above leaves things. */
    ghost predicate Paused()
      reads this, strm, w
    {
      && (phase == Output ==> (stateOutPos < |w.zbits| && strm.availOut == 0) || GivenOut())
      && (phase == Input ==>
            if mode == Running then strm.available == [] else mode == Flushing && availInExpect == 0 && Empty())
    }

    /** Input that the flush or the end covers is still to be taken, or to be put into a block, or bytes of
        the block are still to be handed over. */
    ghost predicate Unfinished()
      reads this, w
    {
      availInExpect > 0 || !Empty() || stateOutPos < |w.zbits|
    }

    /** What the caller is told, and the end of a flush or of the stream. */
    method Report(progress: bool, ghost raw: seq<byte>) returns (status: Status)
      requires Looping(raw) && Paused()
      modifies this`mode
      ensures Shaped() && Steady() && Holds(raw)
      ensures old(mode) == Running ==> mode == Running && status == (if progress then RunOk else ParamError)
      ensures old(mode) == Running ==> strm.available == [] || strm.availOut == 0
      ensures status == FlushOk || status == FinishOk ==> strm.availOut == 0
      ensures old(mode) == Flushing ==> status == FlushOk || (status == RunOk && mode == Running)
      ensures old(mode) == Flushing && status == RunOk ==>
                strm.available == [] && RawOf(blocks) == consumed && w.zbits == []
      ensures old(mode) == Finishing ==> status in {SequenceError, FinishOk, StreamEnd}
      ensures status == SequenceError ==>
                !progress && old(mode) == Finishing
                && (strm.availOut == 0 || CompleteStream(strm.out, blockSize100k, blocks))
      ensures status == StreamEnd ==> strm.available == [] && mode == Idle
      ensures status == FlushOk || status == FinishOk ==> Unfinished()
      ensures status == StreamEnd || (old(mode) == Flushing && status == RunOk) ==> !Unfinished()
      ensures status == StreamEnd ==> CompleteStream(strm.out, blockSize100k, blocks) && RawOf(blocks) == consumed
    {
      hide Holds, Sent, BlocksOk, RawOf, TopHolds, BytesBits, BitsOf, Filling, CombinedCrc, CompleteStream;
      if mode == Running { return if progress then RunOk else ParamError; }
      if mode == Finishing && !progress {
        if strm.availOut > 0 { StreamComplete(raw); }
        return SequenceError;
      }
      if availInExpect > 0 || !IsEmptyRL() || stateOutPos < |w.zbits| {
        return if mode == Flushing then FlushOk else FinishOk;
      }
      if mode == Flushing {
        NothingHeld(raw);
        Leave(Running, raw);
        return RunOk;
      }
      StreamComplete(raw);
      Leave(Idle, raw);
      return StreamEnd;
    }

    /** One call of the interface.  Whatever was called before and however the caller cuts the
        input and the output, the invariant is kept, input is taken in order, and what has been
        given out stays.  When the stream has ended, the output is a complete stream whose
        blocks stand for exactly the bytes taken. */
    method BzCompress(action: Action) returns (status: Status)
      requires Valid()
      modifies this, strm, block, w
      ensures Valid()
      ensures Taken(old(consumed), old(strm.available), consumed, strm.available) && old(strm.out) <= strm.out
      ensures |strm.out| + strm.availOut == old(|strm.out| + strm.availOut)
      ensures status == StreamEnd ==> strm.available == []
      ensures status == StreamEnd ==>
                CompleteStream(strm.out, blockSize100k, blocks) && RawOf(blocks) == consumed && mode == Idle
      ensures old(mode) == Idle ==> status == SequenceError && strm.out == old(strm.out) && consumed == old(consumed)
      ensures old(mode) == Flushing && action != Flush ==> status == SequenceError
      ensures old(mode) == Finishing && action != Finish ==> status == SequenceError
      ensures old(mode) == Running && action == Action.Run ==>
                status == (if Moved(old(strm.available), old(strm.out), strm.available, strm.out) then RunOk
                           else ParamError)
      ensures old(mode) == Running && action == Action.Run ==> strm.available == [] || strm.availOut == 0
      ensures status == FlushOk || status == FinishOk ==> strm.availOut == 0 && Unfinished()
      ensures status == StreamEnd ==> !Unfinished()
      ensures status == RunOk && action == Flush ==> strm.available == [] && RawOf(blocks) == consumed && w.zbits == []
      ensures old(mode) == Running && action == Flush ==> status == FlushOk || status == RunOk
      ensures old(mode) == Running && action == Finish ==> status in {FinishOk, StreamEnd, SequenceError}
      ensures old(mode) == Running && status == SequenceError ==>
                action == Finish && strm.out == old(strm.out)
                && (strm.availOut == 0 || CompleteStream(strm.out, blockSize100k, blocks))
    {
      hide *;
      NoneTaken(consumed, strm.available);
      ghost var raw := Parted();
      var refused := Begin(action, raw);
      if refused {
        Whole(raw);
        return SequenceError;
      }
      var progress;
      progress, raw := HandleCompress(raw);
      LoopingOut(raw);
      NotMoved(old(strm.available), old(strm.out), strm.available, strm.out);
      status := Report(progress, raw);
      Whole(raw);
    }

    /** What Valid stands for. */
    lemma Parted() returns (raw: seq<byte>)
      requires Valid()
      ensures Shaped() && Steady() && Shaped0() && OutOk() && Holds(raw)
    {
      raw :| Holds(raw);
      HoldsShape(raw);
    }

    ghost predicate OutOk()
      reads this, strm`out, w
    {
      stateOutPos <= |w.zbits| && strm.out == w.gone + w.zbits[..stateOutPos]
    }

    lemma Whole(raw: seq<byte>)
      requires Shaped() && Steady() && OutOk() && Holds(raw)
      ensures Valid()
    {
    }

    lemma LoopingOut(raw: seq<byte>)
      requires Looping(raw)
      ensures OutOk()
    {
    }

    /** Which mode the call works in, and whether it is in order at all. */
    method Begin(action: Action, ghost raw: seq<byte>) returns (refused: bool)
      requires Shaped() && Steady() && Shaped0() && OutOk() && Holds(raw)
      modifies this`mode, this`availInExpect
      ensures Shaped() && Steady() && OutOk() && Holds(raw)
      ensures !refused ==> Looping(raw)
      ensures old(mode) == Idle ==> refused
      ensures old(mode) == Flushing && action != Flush ==> refused
      ensures old(mode) == Finishing && action != Finish ==> refused
      ensures mode == if old(mode) == Running && action == Flush then Flushing
                      else if old(mode) == Running && action == Finish then Finishing else old(mode)
      ensures old(mode) == Running ==> !refused
    {
      hide Holds, Sent, BlocksOk, RawOf, TopHolds, BytesBits, BitsOf, Filling, CombinedCrc;
      if mode == Idle { return true; }
      if mode == Running && action != Action.Run {
        Enter(if action == Flush then Flushing else Finishing, raw);
        LoopingOut(raw);
      } else if mode == Flushing || mode == Finishing {
        if action != (if mode == Flushing then Flush else Finish) { return true; }
        if availInExpect != |strm.available| { return true; }
      }
      refused := false;
    }
  }

  lemma NotMoved(a0: seq<byte>, out0: seq<byte>, a: seq<byte>, out: seq<byte>)
    requires out0 <= out
    ensures !Moved(a0, out0, a, out) ==> out == out0
  {
  }

  lemma TakenMore(c0: seq<byte>, a0: seq<byte>, c1: seq<byte>, a1: seq<byte>, c2: seq<byte>, a2: seq<byte>)
    requires Taken(c0, a0, c1, a1) && Taken(c1, a1, c2, a2)
    ensures Taken(c0, a0, c2, a2)
  {
  }

  /** The bytes of a finished stream: header, blocks, trailer, and up to seven padding bits. */
  ghost predicate CompleteStream(bytes: seq<byte>, blockSize100k: nat, blocks: seq<SentBlock>) {
    && 1 <= blockSize100k <= 9 && BlocksOk(blocks, blockSize100k) && AllSendable(blocks)
    && exists padding: nat :: padding < 8 && BytesBits(bytes) == StreamBits(blockSize100k, blocks, true, padding)
  }

  /** Input has been taken or output has been given. */
  ghost predicate Moved(available0: seq<byte>, out0: seq<byte>, available: seq<byte>, out: seq<byte>) {
    |available| < |available0| || |out0| < |out|
  }

  /** Some of what was available has been consumed, in order. */
  ghost predicate Taken(consumed0: seq<byte>, avail0: seq<byte>, consumed: seq<byte>, avail: seq<byte>) {
    consumed0 + avail0 == consumed + avail && consumed0 <= consumed
  }

  lemma NoneTaken(consumed: seq<byte>, avail: seq<byte>)
    ensures Taken(consumed, avail, consumed, avail)
  {
  }

  lemma OneTaken(consumed0: seq<byte>, avail0: seq<byte>, consumed: seq<byte>, avail: seq<byte>)
    requires Taken(consumed0, avail0, consumed, avail) && avail != []
    ensures Taken(consumed0, avail0, consumed + [avail[0]], avail[1..])
  {
    assert avail == [avail[0]] + avail[1..];
  }

  lemma RawSplit(a: seq<byte>, b: seq<byte>, c: seq<byte>)
    ensures a + (b + c) == (a + b) + c && (b == [] ==> a + b == a)
  {
  }

  lemma ExpandNothing(b: seq<byte>)
    requires b == []
    ensures Expand(b).out == []
  {
  }

  lemma NothingLive(top: nat, z: seq<byte>)
    ensures BytesBits(z) + BitsOf(top, 0) == BytesBits(z)
  {
  }
}
