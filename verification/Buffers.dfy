/** Whole buffers at once: compressing one and decompressing it again. */
module Buffers {
  import opened Rotations
  import opened Bits
  import opened StreamFormat
  import opened UnRle
  import opened DecompressStream
  import CompressStream

  /** The bytes are a finished stream that stands for raw. */
  ghost predicate StreamOf(bytes: seq<byte>, raw: seq<byte>) {
    exists blocks, size, padding :: MadeFrom(bytes, blocks, size, padding) && RawOf(blocks) == raw
  }

  /** What the compressor calls a complete stream is what the decompressor expects. */
  lemma CompleteIsStream(bytes: seq<byte>, blockSize100k: nat, blocks: seq<SentBlock>)
    requires CompressStream.CompleteStream(bytes, blockSize100k, blocks)
    ensures StreamOf(bytes, RawOf(blocks))
  {
    hide BlocksOk, HeaderBits, BytesBits, AllSendable, RawOf, Left, CompressStream.StreamBits;
    var padding: nat :| padding < 8 && BytesBits(bytes) ==
      CompressStream.StreamBits(blockSize100k, blocks, true, padding);
    SameBits(blockSize100k, blocks, padding);
    assert MadeFrom(bytes, blocks, blockSize100k, padding);
  }

  lemma SameBits(blockSize100k: nat, blocks: seq<SentBlock>, padding: nat)
    requires 1 <= blockSize100k <= 9 && AllSendable(blocks)
    ensures CompressStream.StreamBits(blockSize100k, blocks, true, padding) ==
              HeaderBits(blockSize100k) + Left(blocks, 0, padding)
  {
    hide HeaderBits, AllSendable, BlocksBits, BlocksFrom, TrailerBits, CombinedCrc;
    BlocksSame(blocks);
    var tail := TrailerBits(CombinedCrc(blocks)) + seq(padding, _ => false);
    Assoc(HeaderBits(blockSize100k), BlocksBits(blocks), tail);
  }

  datatype BufferStatus = Ok | OutbuffFull | UnexpectedEof | Failed(compress: CompressStream.Status)
    | Broken(decompress: DStatus) | ParamError

  /** A finished stream has bytes. */
  lemma CompleteIsNotEmpty(bytes: seq<byte>, blockSize100k: nat, blocks: seq<SentBlock>)
    requires CompressStream.CompleteStream(bytes, blockSize100k, blocks)
    ensures bytes != []
  {
    hide BlocksOk, AllSendable, BlocksBits, TrailerBits, CombinedCrc, BitsOf;
    assert |HeaderBits(blockSize100k)| == 32;
  }

  /** Compresses a buffer.  Where it succeeds, the destination holds a stream of the source; where
      the room is said not to do, all of it has been used. */
  method BuffToBuffCompress(destLen: nat, source: seq<byte>, blockSize100k: int, workFactor: int)
    returns (status: BufferStatus, dest: seq<byte>)
    ensures blockSize100k < 1 || blockSize100k > 9 || workFactor < 0 || workFactor > 250 <==> status.ParamError?
    ensures status.Ok? ==> StreamOf(dest, source) && |dest| <= destLen
    ensures status.OutbuffFull? ==> |dest| == destLen
    ensures !status.Ok? && !status.OutbuffFull? && !status.ParamError? ==> destLen == 0
  {
    hide CompressStream.EState.Valid, CompressStream.Taken, CompressStream.CompleteStream, StreamOf, RawOf;
    dest := [];
    if blockSize100k < 1 || blockSize100k > 9 || workFactor < 0 || workFactor > 250 { return ParamError, dest; }
    var strm := new CompressStream.Strm();
    var s := new CompressStream.EState(strm, blockSize100k, workFactor);
    strm.available := source;
    strm.availOut := destLen;
    var ret := s.BzCompress(CompressStream.Finish);
    if ret == CompressStream.FinishOk { return OutbuffFull, strm.out; }
    if ret != CompressStream.StreamEnd {
      if strm.availOut > 0 { CompleteIsNotEmpty(strm.out, blockSize100k, s.blocks); }
      return Failed(ret), dest;
    }
    AllTaken(source, s.consumed, strm.available);
    CompleteIsStream(strm.out, blockSize100k, s.blocks);
    return BufferStatus.Ok, strm.out;
  }

  lemma AllTaken(source: seq<byte>, consumed: seq<byte>, available: seq<byte>)
    requires CompressStream.Taken([], source, consumed, available) && available == []
    ensures consumed == source
  {
    assert [] + source == source && consumed + [] == consumed;
  }

  lemma Origin(bytes: seq<byte>, raw: seq<byte>) returns (blocks: seq<SentBlock>, size: nat, padding: nat)
    ensures StreamOf(bytes, raw) ==> MadeFrom(bytes, blocks, size, padding) && RawOf(blocks) == raw
  {
    hide MadeFrom, RawOf;
    blocks, size, padding := [], 0, 0;
    if StreamOf(bytes, raw) {
      blocks, size, padding :| MadeFrom(bytes, blocks, size, padding) && RawOf(blocks) == raw;
    }
  }

  /** Decompresses a buffer.  A stream of raw yields raw whenever there is room for it, and
      reports a full buffer when there is not; FAST or SMALL makes no difference. */
  method BuffToBuffDecompress(destLen: nat, source: seq<byte>, small: bool, ghost raw: seq<byte>)
    returns (status: BufferStatus, dest: seq<byte>)
    ensures StreamOf(source, raw) && |raw| <= destLen ==> status.Ok? && dest == raw
    ensures StreamOf(source, raw) && |raw| > destLen ==> status.OutbuffFull?
  {
    hide *;
    ghost var blocks, size, padding := Origin(source, raw);
    var strm := new DStrm();
    var s := new DState(strm, source, small, blocks, size, padding);
    strm.availOut := destLen;
    assert MadeFrom(source, blocks, size, padding) ==> s.Faithful();
    var ret := s.BzDecompress();
    dest := [];
    if ret == DStatus.Ok || ret == InputOut {
      return if strm.availOut > 0 then UnexpectedEof else OutbuffFull, dest;
    }
    if ret != DStatus.StreamEnd { return Broken(ret), dest; }
    return BufferStatus.Ok, strm.out;
  }
}
