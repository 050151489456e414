/** The decompressor as a state machine: header, blocks one after another, trailer, with the
    output cut wherever the caller's room ends. */
module DecompressStream {
  import opened Powers
  import opened Rotations
  import opened BurrowsWheeler
  import opened MoveToFront
  import opened MtfEncoder
  import opened InverseFast
  import opened InverseSmall
  import opened Bits
  import opened BitStream
  import opened HuffmanForest
  import opened CanonicalCodes
  import opened BlockFormat
  import opened BlockCodec
  import opened SymbolDecoder
  import opened BlockCrc
  import opened Gf2
  import opened RunLength
  import opened StreamFormat
  import opened UnRle

  // ---- a block that can be sent ----

  lemma SampleLengths()
    ensures UsableLengths([2, 2, 2])
  {
    var len: seq<byte> := [2, 2, 2];
    var q := Pow2(18);
    assert Pow2(20) == 2 * Pow2(19) && Pow2(19) == 2 * q;
    assert KraftSum(len, 20, 1) == KraftSum(len, 20, 0) + q;
    assert KraftSum(len, 20, 2) == KraftSum(len, 20, 1) + q;
    assert KraftSum(len, 20, 3) == KraftSum(len, 20, 2) + q;
  }

  /** There are blocks to send: a single byte is one. */
  lemma Sample() returns (t: SentBlock)
    ensures Describes(t.x, t.b, t.p, t.s)
  {
    var inUse: seq<bool> := seq(256, c => c == 0);
    var b: seq<byte>, p: seq<nat>, s: seq<byte> := [0], [0], [0];
    assert UsedBelow(inUse, 1) == 1 && UsedBelow(inUse, 0) == 0;
    UsedOnlyFirst(inUse, 256);
    var lens: seq<seq<byte>> := [[2, 2, 2], [2, 2, 2]];
    SampleLengths();
    SymbolsInAlphabet(1, s);
    var syms := Symbols(1, s);
    assert Pow2(15) == 32768 by { FifteenBits(); }
    var plan := Plan(inUse, [0], lens, syms);
    assert Sendable(plan) by { hide UsableLengths, Symbols; }
    t := SentBlock(BlockImage(0, 0, plan), b, p, s);
    SampleOrder(b, p);
    DescribesAll(t.x, b, p, s, 1);
  }

  lemma SampleOrder(b: Block, p: seq<nat>)
    requires b == [0] && p == [0]
    ensures IsRotationOrder(b, p) && Pred(1, 0) == 0
  {
  }

  lemma {:induction false} UsedOnlyFirst(inUse: seq<bool>, x: nat)
    requires 1 <= x <= |inUse| == 256 && forall c :: 0 <= c < 256 ==> inUse[c] == (c == 0)
    ensures UsedBelow(inUse, x) == 1
  {
    if x > 1 { UsedOnlyFirst(inUse, x - 1); }
  }

  // ---- one block, ready to be played ----

  ghost predicate ColumnOf(b: Block, p: seq<nat>, column: seq<byte>, origPtr: nat) {
    IsRotationOrder(b, p) && IsLastColumn(b, p, column) && origPtr < |b| && |p| == |b| && p[origPtr] == 0
  }

  /** The tape of a received column begins with the block that was sorted. */
  lemma TapeIsBlock(b: Block, p: seq<nat>, column: seq<byte>, sorted: seq<nat>, origPtr: nat)
    requires ColumnOf(b, p, column, origPtr) && IsStableSort(column, sorted)
    ensures sorted[origPtr] < |column| == |b| && Tape(column, sorted, sorted[origPtr])[..|b|] == b
  {
    hide Walk, IsRotationOrder;
    InverseRecoversBlock(b, p, column, sorted, origPtr);
    WalkPrefix(column, sorted, sorted[origPtr], |b|, |b| + 2);
  }

  /** Opens a received column with the FAST tables. */
  method OpenFast(strm: DStrm, tt: array<nat>, unzftab: array<nat>, nblock: nat, origPtr: nat, blockSize100k: nat,
                  ghost column: seq<byte>) returns (f: FastOutput)
    requires Stored(tt[..], nblock, unzftab[..], column) && origPtr < nblock && tt != unzftab
    requires tt.Length == 100000 * blockSize100k
    modifies tt
    ensures f.Valid() && f.strm == strm && f.given == [] && f.saveNblock == nblock
    ensures fresh(f) && fresh(f.table) && f.table.tt == tt
    ensures origPtr < |column| && f.w == ColumnTape(column, origPtr)
    ensures forall b: Block, p: seq<nat> :: ColumnOf(b, p, column, origPtr) ==> |b| == nblock && f.w[..nblock] == b
  {
    hide Walk, ColumnTape, Tape, ColumnOf, FastOutput.Reading, Playing, IsStableSort, Rank, Occ, OrHigh;
    StoredCells(tt[..], nblock, unzftab[..], column);
    assert forall c :: 0 <= c < 256 ==> unzftab[c] == unzftab[..][c];
    var table := new FastTable(tt, nblock, blockSize100k, unzftab, origPtr, column);
    f := new FastOutput(strm, table, nblock, table.tPos);
    ghost var sorted := table.sorted;
    OneTape(column, sorted, origPtr);
    forall b: Block, p: seq<nat> | ColumnOf(b, p, column, origPtr)
      ensures |b| == nblock && f.w[..nblock] == b
    {
      TapeIsBlock(b, p, column, sorted, origPtr);
    }
    f.Begin();
  }

  /** The column's bytes as the low sixteen bits of a link array. */
  method LowHalves(tt: array<nat>, nblock: nat, ghost column: seq<byte>) returns (ll: LinkArray)
    requires nblock == |column| <= tt.Length && forall i :: 0 <= i < nblock ==> tt[i] == column[i]
    ensures ll.Valid() && fresh(ll) && fresh(ll.ll16) && fresh(ll.ll4) && |ll.entries| == tt.Length
    ensures forall i :: 0 <= i < nblock ==> ll.entries[i] % 0x1_0000 == column[i]
  {
    var ll16, ll4 := new nat[tt.Length](_ => 0), new nat[(1 + tt.Length) / 2](_ => 0);
    for i := 0 to nblock
      modifies ll16
      invariant forall k :: 0 <= k < ll16.Length ==> ll16[k] < 0x1_0000
      invariant forall k :: 0 <= k < i ==> ll16[k] == column[k]
    {
      ll16[i] := tt[i];
    }
    ll := new LinkArray(ll16, ll4);
  }

  /** Opens a received column with the SMALL tables. */
  method OpenSmall(strm: DStrm, tt: array<nat>, unzftab: array<nat>, nblock: nat, origPtr: nat, blockSize100k: nat,
                   ghost column: seq<byte>) returns (f: SmallOutput)
    requires Stored(tt[..], nblock, unzftab[..], column) && origPtr < nblock && tt != unzftab
    requires tt.Length == 100000 * blockSize100k <= 900000
    ensures f.Valid() && f.strm == strm && f.given == [] && f.saveNblock == nblock
    ensures fresh(f) && fresh(f.table) && fresh(f.table.ll) && fresh(f.table.ll.ll16) && fresh(f.table.ll.ll4)
            && fresh(f.table.cftab)
    ensures origPtr < |column| && f.w == ColumnTape(column, origPtr)
    ensures forall b: Block, p: seq<nat> :: ColumnOf(b, p, column, origPtr) ==> |b| == nblock && f.w[..nblock] == b
  {
    hide Walk, ColumnTape, Tape, ColumnOf, SmallOutput.Reading, Playing, IsStableSort, Rank, Occ, LinkArray.Valid,
         SmallTable.Valid;
    StoredCells(tt[..], nblock, unzftab[..], column);
    assert forall c :: 0 <= c < 256 ==> unzftab[c] == unzftab[..][c];
    var ll := LowHalves(tt, nblock, column);
    var table := new SmallTable(ll, nblock, blockSize100k, unzftab, origPtr, column);
    table.Follows();
    f := new SmallOutput(strm, table, nblock, origPtr);
    ghost var sorted := table.sorted;
    OneTape(column, sorted, origPtr);
    forall b: Block, p: seq<nat> | ColumnOf(b, p, column, origPtr)
      ensures |b| == nblock && f.w[..nblock] == b
    {
      TapeIsBlock(b, p, column, sorted, origPtr);
    }
    f.Begin();
  }

  lemma StoredCells(tt: seq<nat>, nblock: nat, unzftab: seq<nat>, column: seq<byte>)
    requires Stored(tt, nblock, unzftab, column)
    ensures |column| == nblock <= |tt| && |unzftab| == 256
    ensures forall i :: 0 <= i < nblock ==> tt[i] == column[i]
    ensures forall c :: 0 <= c < 256 ==> unzftab[c] == Occ(column, |column|, c)
  {
  }

  // ---- the stream ----

  datatype DPhase = Magic | BlockHeader | Output | Ended

  /** InputOut is what the source calls success too: there is no more input, and nothing else is
      wrong.  Overrun is no status of the source: a store past the end of an array has come, and
      what follows is undefined. */
  datatype DStatus = Ok | InputOut | StreamEnd | DataError | SequenceError | Overrun

  /** What is still to come when i blocks have been opened. */
  ghost function Left(blocks: seq<SentBlock>, i: nat, padding: nat): seq<bool>
    requires AllSendable(blocks) && i <= |blocks|
  {
    BlocksFrom(blocks, i) + (TrailerBits(CombinedCrc(blocks)) + seq(padding, _ => false))
  }

  ghost predicate StreamLeft(pending: seq<bool>, blocks: seq<SentBlock>, i: nat, padding: nat) {
    AllSendable(blocks) && i <= |blocks| && pending == Left(blocks, i, padding)
  }

  /** The magic byte of block i has been read. */
  ghost predicate BodyLeft(pending: seq<bool>, blocks: seq<SentBlock>, i: nat, padding: nat) {
    AllSendable(blocks) && i < |blocks| && pending == BodyBits(blocks[i].x) + Left(blocks, i + 1, padding)
  }

  lemma LeftNext(blocks: seq<SentBlock>, i: nat, padding: nat)
    requires AllSendable(blocks) && i < |blocks|
    ensures Left(blocks, i, padding) == BitsOf(0x31, 8) + (BodyBits(blocks[i].x) + Left(blocks, i + 1, padding))
  {
    hide BitsOf, BodyBits, TrailerBits, Sendable, CombinedCrc;
    var tail := TrailerBits(CombinedCrc(blocks)) + seq(padding, _ => false);
    Assoc(OneBlock(blocks[i]), BlocksFrom(blocks, i + 1), tail);
    Assoc(BitsOf(0x31, 8), BodyBits(blocks[i].x), Left(blocks, i + 1, padding));
  }

  lemma LeftLast(blocks: seq<SentBlock>, padding: nat)
    requires AllSendable(blocks)
    ensures Left(blocks, |blocks|, padding) ==
              BitsOf(0x17, 8)
              + (BytesBits(TRAILER_MAGIC) + (BytesBits(CrcBytes(CombinedCrc(blocks))) + seq(padding, _ => false)))
  {
    hide BitsOf, BytesBits, Sendable, CombinedCrc, CrcBytes;
    var z: seq<bool>, t := seq(padding, _ => false), TrailerBits(CombinedCrc(blocks));
    assert [] + (t + z) == t + z;
    Assoc(BitsOf(0x17, 8), BytesBits(TRAILER_MAGIC) + BytesBits(CrcBytes(CombinedCrc(blocks))), z);
    Assoc(BytesBits(TRAILER_MAGIC), BytesBits(CrcBytes(CombinedCrc(blocks))), z);
  }

  lemma PrefixNext(blocks: seq<SentBlock>, i: nat)
    requires i < |blocks|
    ensures RawOf(blocks[..i + 1]) == RawOf(blocks[..i]) + Expand(blocks[i].b).out
    ensures CombinedCrc(blocks[..i + 1]) == Xor(RotateLeft(CombinedCrc(blocks[..i])), blocks[i].x.crc)
  {
    assert blocks[..i + 1] == blocks[..i] + [blocks[i]];
    RawNext(blocks[..i], blocks[i]);
  }

  ghost predicate WholeStream(pending: seq<bool>, blocks: seq<SentBlock>, blockSize100k: nat, padding: nat) {
    AllSendable(blocks) && 1 <= blockSize100k <= 9 && pending == HeaderBits(blockSize100k) + Left(blocks, 0, padding)
  }

  /** The input is a complete stream of these blocks. */
  ghost predicate MadeFrom(input: seq<byte>, sent: seq<SentBlock>, sentSize: nat, padding: nat) {
    BlocksOk(sent, sentSize) && WholeStream(BytesBits(input), sent, sentSize, padding)
  }

  class DState {
    const strm: DStrm
    const r: BitReader
    const small: bool
    var phase: DPhase
    var blockSize100k: nat
    var storedBlockCRC: bv32
    var calculatedCombinedCRC: bv32
    var storedCombinedCRC: bv32
    var fast: FastOutput?
    var slow: SmallOutput?
    /** what the input was made from, where it is a complete stream */
    ghost const sent: seq<SentBlock>
    ghost const sentSize: nat
    ghost const padding: nat
    /** how many of those blocks have been finished */
    ghost var index: nat

    ghost predicate Shaped()
      reads this, r
    {
      && r.Valid() && (phase == BlockHeader || phase == Output ==> 1 <= blockSize100k <= 9)
      && (if small then fast == null else slow == null)
    }

    /** The objects of the block being played. */
    ghost function Parts(): set<object>
      reads `fast, `slow
    {
      (if fast == null then {} else {fast, fast.table, fast.table.tt})
      + (if slow == null then {}
         else {slow, slow.table, slow.table.ll, slow.table.ll.ll16, slow.table.ll.ll4, slow.table.cftab})
    }

    ghost predicate Ready()
      reads `fast, `slow, Parts()
    {
      if small then slow != null && slow.Valid() && slow.strm == strm
      else fast != null && fast.Valid() && fast.strm == strm
    }

    ghost function BlockNow(): seq<byte>
      reads `fast, `slow, Parts()
      requires Ready()
    {
      if small then slow.w[..slow.saveNblock] else fast.w[..fast.saveNblock]
    }

    ghost function GivenNow(): seq<byte>
      reads `fast, `slow, Parts()
      requires Ready()
    {
      if small then slow.given else fast.given
    }

    /** Block b is about to be played. */
    ghost predicate Opened(b: Block)
      reads `fast, `slow, Parts()
    {
      Ready() && BlockNow() == b && GivenNow() == []
    }

    /** The block with number index is about to be played. */
    ghost predicate AtBlock()
      reads this, r, Parts()
    {
      && index < |sent| && r.Valid() && Opened(sent[index].b) && storedBlockCRC == sent[index].x.crc
      && StreamLeft(r.Pending(), sent, index + 1, padding)
    }

    ghost predicate Valid()
      reads this, r, Parts()
    {
      Shaped() && (phase == Output ==> Ready())
    }

    /** The input is a complete stream made from sent, and everything so far is as it was sent. */
    ghost predicate Faithful()
      reads this, r, strm`out, Parts()
      requires Valid()
    {
      && BlocksOk(sent, sentSize) && 1 <= sentSize <= 9 && index <= |sent|
      && match phase
         case Magic => index == 0 && WholeStream(r.Pending(), sent, sentSize, padding)
                       && strm.out == [] && calculatedCombinedCRC == 0
         case BlockHeader => blockSize100k == sentSize && StreamLeft(r.Pending(), sent, index, padding)
                             && strm.out == RawOf(sent[..index]) && calculatedCombinedCRC == CombinedCrc(sent[..index])
         case Output => index < |sent| && blockSize100k == sentSize && StreamLeft(r.Pending(), sent, index + 1, padding)
                        && BlockNow() == sent[index].b && storedBlockCRC == sent[index].x.crc
                        && strm.out == RawOf(sent[..index]) + GivenNow()
                        && calculatedCombinedCRC == CombinedCrc(sent[..index])
         case Ended => strm.out == RawOf(sent)
    }

    /** Every block has been played and checked. */
    ghost predicate AllPlayed()
      reads this, strm
    {
      && BlocksOk(sent, sentSize) && 1 <= sentSize <= 9 && index <= |sent|
      && strm.out == RawOf(sent) && calculatedCombinedCRC == CombinedCrc(sent)
    }

    /** A new decompressor, on input that may have been made from the given blocks. */
    constructor (strm: DStrm, input: seq<byte>, small: bool, ghost sent: seq<SentBlock>, ghost sentSize: nat,
                 ghost padding: nat)
      requires strm.out == []
      ensures Valid() && this.strm == strm && this.sent == sent && phase == Magic && Parts() == {} && fresh(r)
      ensures MadeFrom(input, sent, sentSize, padding) ==> Faithful()
    {
      hide Left, HeaderBits, BlocksOk, AllSendable, Ready, Opened;
      this.strm, this.small, this.sent, this.sentSize, this.padding := strm, small, sent, sentSize, padding;
      r := new BitReader(input);
      phase, blockSize100k, storedBlockCRC, calculatedCombinedCRC, storedCombinedCRC := Magic, 0, 0, 0, 0;
      fast, slow, index := null, null, 0;
    }

    /** The stream header: three magic bytes and the block size. */
    method OpenStream() returns (ok: bool)
      requires Valid() && phase == Magic
      modifies r, this`phase, this`blockSize100k
      ensures r.Valid() && |r.Pending()| <= |old(r.Pending())|
      ensures Valid() && (ok ==> phase == BlockHeader) && (!ok ==> phase == Magic)
      ensures ok ==> StreamAhead(old(r.Pending()), blockSize100k)
      ensures old(Faithful()) ==> ok && Faithful()
    {
      hide BitsOf, BytesBits, LowHolds, BlocksOk, RawOf, CombinedCrc, Left, Ready, StreamAhead;
      ghost var rest := if AllSendable(sent) then Left(sent, 0, padding) else [];
      ghost var k: byte := if 1 <= sentSize <= 9 then 0x30 + sentSize else 0;
      var size;
      ok, size := GetHeader(r, k, rest);
      if !ok { return; }
      blockSize100k := size - 0x30;
      phase := BlockHeader;
      NothingYet(sent);
    }

    /** The next block, or the trailer. */
    method OpenBlock() returns (ok: bool, overrun: bool, ended: bool, storedCombinedCRC: bv32)
      requires Valid() && phase == BlockHeader
      modifies r, this`phase, this`storedBlockCRC, this`fast, this`slow
      ensures r.Valid() && |r.Pending()| <= |old(r.Pending())| && (ok ==> |r.Pending()| < |old(r.Pending())|)
      ensures fresh(Parts() - old(Parts()))
      ensures Valid() && (ok && !ended ==> phase == Output) && (!ok || ended ==> phase == BlockHeader)
      ensures ok ==> (if ended then TrailerAhead(old(r.Pending()), storedCombinedCRC)
                      else BlockAhead(old(r.Pending()), storedBlockCRC))
      ensures old(Faithful()) ==> ok && (ended <==> index == |sent|)
      ensures old(Faithful()) && ended ==> storedCombinedCRC == CombinedCrc(sent) && AllPlayed()
      ensures old(Faithful()) && !ended ==> Faithful()
    {
      hide BitsOf, BytesBits, LowHolds, BlocksOk, RawOf, CombinedCrc, FastOutput.Valid, SmallOutput.Valid, CrcBytes,
           BodyBits, Sendable;
      hide Left, BlockAhead, TrailerAhead, AllPlayed, BodyLeft, StreamLeft, Faithful, AtBlock;
      ghost var honest := Faithful();
      ghost var last := index >= |sent|;
      ghost var first: byte, rest: seq<bool> := 0x17, [];
      if honest { first, rest := Awaited(); }
      overrun, ended, storedCombinedCRC := false, false, 0;
      var uc;
      ghost var bits := r.Pending();
      ok, uc := GetUChar(r, first, rest);
      if !ok { return; }
      ghost var after := r.Pending();
      if uc == 0x17 {
        ok, storedCombinedCRC := OpenTrailer();
        ended := true;
        if ok { TrailerStarts(bits, after, storedCombinedCRC); }
        return;
      }
      if uc != 0x31 { ok := false; return; }
      ok, overrun := OpenBody(honest && !last);
      if ok { BlockStarts(bits, after, storedBlockCRC); }
      if honest && !last { AtBlockFaithful(); }
    }

    /** What must come next in a stream that was made from the given blocks. */
    lemma Awaited() returns (first: byte, rest: seq<bool>)
      requires Valid() && phase == BlockHeader && Faithful()
      ensures r.Pending() == BitsOf(first, 8) + rest && index <= |sent|
      ensures BlocksOk(sent, sentSize) && 1 <= sentSize == blockSize100k <= 9
      ensures strm.out == RawOf(sent[..index]) && calculatedCombinedCRC == CombinedCrc(sent[..index])
      ensures first == (if index < |sent| then 0x31 else 0x17)
      ensures if index < |sent| then BodyLeft(rest, sent, index, padding)
              else rest == BytesBits(TRAILER_MAGIC)
                   + (BytesBits(CrcBytes(CombinedCrc(sent))) + seq(padding, _ => false))
                   && AllPlayed()
    {
      hide BitsOf, BytesBits, LowHolds, BlocksOk, RawOf, CombinedCrc, CrcBytes, BodyBits, Sendable, Left;
      if index == |sent| {
        LeftLast(sent, padding);
        first := 0x17;
        rest := BytesBits(TRAILER_MAGIC) + (BytesBits(CrcBytes(CombinedCrc(sent))) + seq(padding, _ => false));
        assert sent[..index] == sent;
      } else {
        LeftNext(sent, index, padding);
        first, rest := 0x31, BodyBits(sent[index].x) + Left(sent, index + 1, padding);
      }
    }

    lemma AtBlockFaithful()
      requires Valid() && phase == Output && AtBlock() && BlocksOk(sent, sentSize) && 1 <= sentSize <= 9
      requires sentSize == blockSize100k && strm.out == RawOf(sent[..index])
      requires calculatedCombinedCRC == CombinedCrc(sent[..index])
      ensures Faithful()
    {
      hide BlocksOk, RawOf, CombinedCrc, StreamLeft, LowHolds, BytesBits, BitsOf, FastOutput.Valid, SmallOutput.Valid;
    }

    method OpenTrailer() returns (ok: bool, storedCombinedCRC: bv32)
      requires r.Valid()
      modifies r
      ensures r.Valid()
      ensures r.Valid() && |r.Pending()| <= |old(r.Pending())|
      ensures old(r.Pending()) ==
                BytesBits(TRAILER_MAGIC) + (BytesBits(CrcBytes(CombinedCrc(sent))) + seq(padding, _ => false)) ==>
                ok && storedCombinedCRC == CombinedCrc(sent)
      ensures ok ==> BytesBits(TRAILER_MAGIC) + BytesBits(CrcBytes(storedCombinedCRC)) <= old(r.Pending())
    {
      hide BitsOf, BytesBits, LowHolds, CombinedCrc, CrcBytes;
      ghost var z := seq(padding, _ => false);
      storedCombinedCRC := 0;
      ok := GetMagic(r, TRAILER_MAGIC, BytesBits(CrcBytes(CombinedCrc(sent))) + z);
      if !ok { return; }
      ok, storedCombinedCRC := GetUInt32(r, CombinedCrc(sent), z);
      Assoc(BytesBits(TRAILER_MAGIC), BytesBits(CrcBytes(storedCombinedCRC)), r.Pending());
    }

    /** A block after its first magic byte. */
    method OpenBody(ghost honest: bool) returns (ok: bool, overrun: bool)
      requires Shaped() && phase == BlockHeader
      requires honest ==>
                 BlocksOk(sent, sentSize) && sentSize == blockSize100k && BodyLeft(r.Pending(), sent, index, padding)
      modifies r, this`phase, this`storedBlockCRC, this`fast, this`slow
      ensures r.Valid() && |r.Pending()| <= |old(r.Pending())|
      ensures Valid() && fresh(Parts() - old(Parts())) && phase == (if ok then Output else BlockHeader)
      ensures ok ==> BytesBits(BLOCK_MAGIC) + BytesBits(CrcBytes(storedBlockCRC)) <= old(r.Pending())
      ensures honest ==> ok && AtBlock()
    {
      hide BitsOf, BytesBits, LowHolds, RawOf, CombinedCrc, FastOutput.Valid, SmallOutput.Valid, CrcBytes, BodyBits,
           Sendable, Left, Describes, Stored, ColumnOf, Complete, Crc, Expand, Finalised;
      ghost var t := Sample();
      ghost var rest: seq<bool> := [];
      if honest {
        t := sent[index];
        rest := Left(sent, index + 1, padding);
        assert BlockOk(t, sentSize);
      }
      var got, tt, unzftab;
      ghost var column;
      ok, overrun, got, tt, unzftab, column := ReceiveBlock(r, blockSize100k, t.x, t.b, t.p, t.s, rest);
      if !ok { return; }
      if got.randomised { ok := false; return; }
      if honest { DescribedColumn(t, column); }
      OpenColumn(got, tt, unzftab, column);
    }

    /** A received column, opened with the tables of the decoder in use. */
    method OpenColumn(got: Received, tt: array<nat>, unzftab: array<nat>, ghost column: seq<byte>)
      requires Shaped() && phase == BlockHeader && tt.Length == 100000 * blockSize100k
      requires Stored(tt[..], got.nblock, unzftab[..], column) && got.origPtr < got.nblock && tt != unzftab
      modifies tt, this`phase, this`storedBlockCRC, this`fast, this`slow
      ensures Valid() && phase == Output && storedBlockCRC == got.storedCRC
      ensures fresh(Parts() - {tt})
      ensures r.Pending() == old(r.Pending())
      ensures forall b: Block, p: seq<nat> :: ColumnOf(b, p, column, got.origPtr) ==> Opened(b)
    {
      hide LowHolds, BytesBits, BitsOf, FastOutput.Valid, SmallOutput.Valid, Stored, ColumnOf;
      storedBlockCRC := got.storedCRC;
      if small {
        slow := OpenSmall(strm, tt, unzftab, got.nblock, got.origPtr, blockSize100k, column);
      } else {
        fast := OpenFast(strm, tt, unzftab, got.nblock, got.origPtr, blockSize100k, column);
      }
      phase := Output;
    }

    /** Plays as much of the block as there is room for. */
    method PlayOut() returns (corrupt: bool, finished: bool, crc: bv32)
      requires Valid() && phase == Output
      modifies strm, Parts()
      ensures Valid() && Played(old(BlockNow()), old(GivenNow()), old(strm.out))
      ensures corrupt ==> !Complete(old(BlockNow()))
      ensures |strm.out| + strm.availOut == old(|strm.out| + strm.availOut)
      ensures !corrupt && !finished ==>
                strm.availOut == 0 && (Complete(BlockNow()) ==> |GivenNow()| < |Expand(BlockNow()).out|)
      ensures !corrupt && finished ==>
                Complete(BlockNow()) && GivenNow() == Expand(BlockNow()).out && crc == Crc(GivenNow())
    {
      hide Playing, Walk, Crc, Expand, Complete, FastOutput.Reading, SmallOutput.Reading, Given, LowHolds;
      if small {
        corrupt := slow.Unrle();
        PlayEndIf(slow.w, slow.saveNblock, slow.nblockUsed, slow.k0, slow.stateOutLen, slow.stateOutCh, slow.given);
        finished := slow.nblockUsed == slow.saveNblock + 1 && slow.stateOutLen == 0;
        crc := slow.calculatedBlockCRC;
      } else {
        corrupt := fast.Unrle();
        PlayEndIf(fast.w, fast.saveNblock, fast.nblockUsed, fast.k0, fast.stateOutLen, fast.stateOutCh, fast.given);
        finished := fast.nblockUsed == fast.saveNblock + 1 && fast.stateOutLen == 0;
        crc := fast.calculatedBlockCRC;
      }
    }

    /** One round of the output phase: the block is played, and when it is used up its
        checksum is compared and the next block comes. */
    method PlayBlock() returns (error: bool)
      requires Valid() && phase == Output
      modifies this`phase, this`calculatedCombinedCRC, this`index, strm, Parts()
      ensures Valid() && (phase == Output || phase == BlockHeader)
      ensures Parts() == old(Parts()) && r.Pending() == old(r.Pending())
      ensures !error && phase == Output ==> strm.availOut == 0
      ensures !error && phase == BlockHeader ==> ChecksOut(old(BlockNow()), storedBlockCRC)
      ensures !error ==>
                calculatedCombinedCRC == if phase == Output then old(calculatedCombinedCRC)
                                         else Xor(RotateLeft(old(calculatedCombinedCRC)), storedBlockCRC)
      ensures |strm.out| + strm.availOut == old(|strm.out| + strm.availOut)
      ensures old(Faithful()) ==> !error && Faithful() && (phase == Output ==> |strm.out| < |RawOf(sent)|)
    {
      hide BlocksOk, CombinedCrc, RawOf, StreamLeft, FastOutput.Valid, SmallOutput.Valid, Crc, Expand, Complete,
           Given, LowHolds;
      hide WholeStream, BytesBits, BitsOf, Xor, RotateLeft, Finalised;
      ghost var honest, b, given0, out0 := Faithful(), BlockNow(), GivenNow(), strm.out;
      if honest { SentBlockOk(); }
      var corrupt, finished, crc := PlayOut();
      if honest { GivenAfter(RawOf(sent[..index]), given0, out0, GivenNow(), strm.out); }
      if corrupt { return true; }
      if !finished {
        if honest { MoreToCome(sent, index, GivenNow()); }
        return false;
      }
      error := CloseBlock(Finalised(crc), honest);
    }

    /** The checksum of a block that has been given out entirely is compared and taken into the
        combined one. */
    method CloseBlock(crc: bv32, ghost honest: bool) returns (error: bool)
      requires Valid() && phase == Output
      requires honest ==> Faithful() && GivenNow() == Expand(sent[index].b).out && crc == sent[index].x.crc
      modifies this`phase, this`calculatedCombinedCRC, this`index
      ensures Valid() && phase == (if error then Output else BlockHeader)
      ensures error <==> crc != storedBlockCRC
      ensures !error ==> calculatedCombinedCRC == Xor(RotateLeft(old(calculatedCombinedCRC)), storedBlockCRC)
      ensures honest ==> !error && Faithful()
    {
      hide BlocksOk, CombinedCrc, RawOf, StreamLeft, FastOutput.Valid, SmallOutput.Valid, Expand, LowHolds, Xor,
           RotateLeft;
      error := crc != storedBlockCRC;
      if error { return; }
      calculatedCombinedCRC := Xor(RotateLeft(calculatedCombinedCRC), crc);
      if honest {
        PrefixNext(sent, index);
        index := index + 1;
      }
      phase := BlockHeader;
    }

    lemma SentBlockOk()
      requires Valid() && phase == Output && Faithful()
      ensures index < |sent| && Complete(sent[index].b)
              && sent[index].x.crc == Finalised(Crc(Expand(sent[index].b).out))
    {
      assert BlockOk(sent[index], sentSize);
    }

    /** The end of the stream, where the checksums of all blocks together are compared. */
    method Finish(storedCombinedCRC: bv32, ghost honest: bool) returns (same: bool)
      requires Valid() && phase == BlockHeader
      requires honest ==> storedCombinedCRC == CombinedCrc(sent) && AllPlayed()
      modifies this`phase, this`storedCombinedCRC
      ensures Valid() && phase == Ended && this.storedCombinedCRC == storedCombinedCRC
      ensures same <==> calculatedCombinedCRC == storedCombinedCRC
      ensures honest ==> same && Faithful() && strm.out == RawOf(sent)
    {
      hide BlocksOk, CombinedCrc, RawOf;
      phase, this.storedCombinedCRC := Ended, storedCombinedCRC;
      same := calculatedCombinedCRC == storedCombinedCRC;
    }

    /** Why what was read is not accepted. */
    function Refusal(overrun: bool): (status: DStatus)
      reads r
      ensures status in {DStatus.DataError, InputOut, DStatus.Overrun}
    {
      if overrun then DStatus.Overrun else if r.starved then InputOut else DStatus.DataError
    }

    /** Headers up to the next block, or the end of the stream. */
    method OpenNext() returns (stop: bool, status: DStatus)
      requires Valid() && (phase == Magic || phase == BlockHeader)
      modifies this`phase, this`blockSize100k, this`storedBlockCRC, this`storedCombinedCRC, this`fast, this`slow, r
      ensures Valid() && fresh(Parts() - old(Parts()))
      ensures stop && status == StreamEnd ==> calculatedCombinedCRC == storedCombinedCRC
      ensures if stop then
                status in {DStatus.DataError, InputOut, DStatus.Overrun} || (status == StreamEnd && phase == Ended)
              else phase == Output && |r.Pending()| < |old(r.Pending())|
      ensures old(Faithful()) ==> Faithful() && (stop ==> status == StreamEnd && strm.out == RawOf(sent))
    {
      hide Faithful, Ready, LowHolds, BytesBits, BitsOf, RawOf, CombinedCrc, BlocksOk, AllPlayed, BlockAhead;
      hide TrailerAhead, CrcBytes;
      ghost var honest := Faithful();
      stop, status := true, DStatus.DataError;
      if phase == Magic {
        var started := OpenStream();
        if !started {
          status := Refusal(false);
          return;
        }
      }
      var ok, overrun, ended, stored := OpenBlock();
      if !ok {
        status := Refusal(overrun);
        return;
      }
      if ended {
        var same := Finish(stored, honest);
        status := if same then StreamEnd else DStatus.DataError;
      } else {
        stop := false;
      }
    }

    /** One call of the interface.  On a complete stream no call fails; each fills the room it
        is given or reaches the end; and at the end the output is what the blocks stand for,
        however the room was cut. */
    method BzDecompress() returns (status: DStatus)
      requires Valid()
      modifies this`phase, this`blockSize100k, this`storedBlockCRC, this`calculatedCombinedCRC,
               this`storedCombinedCRC, this`fast, this`slow, this`index
      modifies strm, r, Parts()
      ensures Valid() && fresh(Parts() - old(Parts()))
      ensures status == StreamEnd ==> calculatedCombinedCRC == storedCombinedCRC
      ensures old(Faithful()) && old(phase) != Ended ==> Faithful() && (status == Ok || status == StreamEnd)
      ensures |strm.out| + strm.availOut == old(|strm.out| + strm.availOut)
      ensures old(Faithful()) && status == Ok ==> strm.availOut == 0 && |strm.out| < |RawOf(sent)|
      ensures old(Faithful()) && status == StreamEnd ==> strm.out == RawOf(sent) && phase == Ended
      ensures old(phase) == Ended ==> status == SequenceError && strm.out == old(strm.out)
    {
      hide Faithful, Ready, Parts, LowHolds, BytesBits, BitsOf, RawOf, CombinedCrc, BlocksOk, AllPlayed,
           FastOutput.Valid, SmallOutput.Valid;
      ghost var honest, before := Faithful(), Parts();
      if phase == Ended { return SequenceError; }
      while true
        invariant Valid() && phase != Ended && (honest ==> Faithful()) && fresh(Parts() - before)
        invariant r.Valid() && |strm.out| + strm.availOut == old(|strm.out| + strm.availOut)
        decreases |r.Pending()|, if phase == Output then 1 else 0
      {
        if phase == Output {
          var error := PlayBlock();
          if error { return DStatus.DataError; }
          if phase == Output { return Ok; }
        }
        var stop;
        ghost var mid := Parts();
        label Opening:
        stop, status := OpenNext();
        ghost var now := Parts();
        forall o | o in now && o !in before ensures fresh(o) {
          if o in mid {
            assert o in mid - before;
          } else {
            assert o in now - mid;
            assert old(allocated(o)) ==> old@Opening(allocated(o));
          }
        }
        if stop { return; }
      }
    }

    ghost predicate Played(b: Block, given0: seq<byte>, out0: seq<byte>)
      reads `fast, `slow, strm, Parts()
    {
      Ready() && BlockNow() == b && Given(given0, out0, GivenNow(), strm.out)
    }
  }

  /** A stream of this block size lies ahead. */
  ghost predicate StreamAhead(bits: seq<bool>, blockSize100k: nat) {
    1 <= blockSize100k <= 9 && BytesBits([0x42, 0x5a, 0x68]) + BitsOf(0x30 + blockSize100k, 8) <= bits
  }

  /** A block, or the trailer, lies ahead, and its header holds this checksum. */
  ghost predicate BlockAhead(bits: seq<bool>, crc: bv32) {
    BitsOf(0x31, 8) + (BytesBits(BLOCK_MAGIC) + BytesBits(CrcBytes(crc))) <= bits
  }

  ghost predicate TrailerAhead(bits: seq<bool>, crc: bv32) {
    BitsOf(0x17, 8) + (BytesBits(TRAILER_MAGIC) + BytesBits(CrcBytes(crc))) <= bits
  }

  lemma StartsWith(bits: seq<bool>, c: byte, after: seq<bool>, next: seq<bool>)
    requires bits == BitsOf(c, 8) + after && next <= after
    ensures BitsOf(c, 8) + next <= bits
  {
    hide BitsOf;
    assert after == next + after[|next|..];
    Assoc(BitsOf(c, 8), next, after[|next|..]);
  }

  lemma BlockStarts(bits: seq<bool>, after: seq<bool>, crc: bv32)
    requires bits == BitsOf(0x31, 8) + after && BytesBits(BLOCK_MAGIC) + BytesBits(CrcBytes(crc)) <= after
    ensures BlockAhead(bits, crc)
  {
    hide BitsOf, BytesBits, CrcBytes;
    StartsWith(bits, 0x31, after, BytesBits(BLOCK_MAGIC) + BytesBits(CrcBytes(crc)));
  }

  lemma TrailerStarts(bits: seq<bool>, after: seq<bool>, crc: bv32)
    requires bits == BitsOf(0x17, 8) + after && BytesBits(TRAILER_MAGIC) + BytesBits(CrcBytes(crc)) <= after
    ensures TrailerAhead(bits, crc)
  {
    hide BitsOf, BytesBits, CrcBytes;
    StartsWith(bits, 0x17, after, BytesBits(TRAILER_MAGIC) + BytesBits(CrcBytes(crc)));
  }

  /** The block stands for bytes with this checksum. */
  ghost predicate ChecksOut(b: Block, crc: bv32) {
    Complete(b) && Finalised(Crc(Expand(b).out)) == crc
  }

  lemma {:induction false} RawGrows(blocks: seq<SentBlock>, i: nat, k: nat)
    requires i <= k <= |blocks|
    ensures |RawOf(blocks[..i])| <= |RawOf(blocks[..k])|
    decreases k
  {
    hide RawOf, Expand;
    if i < k {
      RawGrows(blocks, i, k - 1);
      PrefixNext(blocks, k - 1);
    }
  }

  lemma MoreToCome(blocks: seq<SentBlock>, i: nat, given: seq<byte>)
    requires i < |blocks| && |given| < |Expand(blocks[i].b).out|
    ensures |RawOf(blocks[..i]) + given| < |RawOf(blocks)|
  {
    hide RawOf, Expand;
    PrefixNext(blocks, i);
    RawGrows(blocks, i + 1, |blocks|);
    assert blocks[..|blocks|] == blocks;
  }

  lemma GivenAfter(raw: seq<byte>, given0: seq<byte>, out0: seq<byte>, given: seq<byte>, out: seq<byte>)
    requires out0 == raw + given0 && Given(given0, out0, given, out)
    ensures out == raw + given
  {
    assert given == given0 + given[|given0|..];
  }

  lemma PlayEndIf(w: seq<byte>, n: nat, used: nat, k0: byte, len: nat, ch: byte, given: seq<byte>)
    requires Playing(w, n, used, k0, len, ch, given)
    ensures |w| >= n && (used == n + 1 && len == 0 ==> Complete(w[..n]) && given == Expand(w[..n]).out)
    ensures !(used == n + 1 && len == 0) && Complete(w[..n]) ==> |given| < |Expand(w[..n]).out|
  {
    if len == 0 { PlayEnd(w, n, used, k0, len, ch, given); }
    if !(used == n + 1 && len == 0) && Complete(w[..n]) { PlayMore(w, n, used, k0, len, ch, given); }
  }

  lemma DescribedColumn(t: SentBlock, column: seq<byte>)
    requires Describes(t.x, t.b, t.p, t.s) && IsLastColumn(t.b, t.p, column)
    ensures ColumnOf(t.b, t.p, column, t.x.origPtr)
  {
    hide Sendable, UsedBelow, Symbols;
    OrderIsPerm(t.b, t.p);
  }

  lemma HeaderApart(k: byte, rest: seq<bool>)
    ensures BytesBits([0x42, 0x5a, 0x68, k]) + rest == BytesBits([0x42, 0x5a, 0x68]) + (BitsOf(k, 8) + rest)
  {
    hide BitsOf;
    assert [0x42, 0x5a, 0x68, k][..3] == [0x42, 0x5a, 0x68];
    Assoc(BytesBits([0x42, 0x5a, 0x68]), BitsOf(k, 8), rest);
  }

  /** Three magic bytes and the block size as a digit. */
  method GetHeader(r: BitReader, ghost k: byte, ghost rest: seq<bool>) returns (ok: bool, size: byte)
    requires r.Valid()
    modifies r
    ensures r.Valid() && |r.Pending()| <= |old(r.Pending())|
    ensures ok ==> 0x31 <= size <= 0x39 && StreamAhead(old(r.Pending()), size - 0x30)
    ensures 0x31 <= k <= 0x39 && old(r.Pending()) == BytesBits([0x42, 0x5a, 0x68, k]) + rest ==>
              ok && size == k && r.Pending() == rest
  {
    hide BitsOf, BytesBits, LowHolds;
    HeaderApart(k, rest);
    size := 0;
    ok := GetMagic(r, [0x42, 0x5a, 0x68], BitsOf(k, 8) + rest);
    if !ok { return; }
    ok, size := GetUChar(r, k, rest);
    if !ok || size < 0x31 || size > 0x39 { ok := false; return; }
    Assoc(BytesBits([0x42, 0x5a, 0x68]), BitsOf(size, 8), r.Pending());
  }

  lemma NothingYet(blocks: seq<SentBlock>)
    ensures blocks[..0] == [] && RawOf(blocks[..0]) == [] && CombinedCrc(blocks[..0]) == 0
  {
  }
}
