/** A whole block of the compressed stream: sorting, ranks and codes on the way out, and the
    same way back to the last column of the sorted rotations. */
module BlockCodec {
  import opened Powers
  import opened Rotations
  import opened BurrowsWheeler
  import opened MoveToFront
  import opened MtfEncoder
  import opened Bits
  import opened BitStream
  import opened HuffmanForest
  import opened HuffmanLengths
  import opened CanonicalCodes
  import opened BlockFormat
  import opened BlockWriter
  import opened BlockReader
  import opened SymbolDecoder
  import BlockSort

  // ---- what is sent for a block ----

  function CrcByte(crc: bv32, shift: nat): bv32
    requires shift <= 24
  {
    (crc >> shift) & 0xff
  }

  lemma ByteSmall(crc: bv32, shift: nat)
    requires shift <= 24
    ensures CrcByte(crc, shift) <= 0xff
  {
  }

  /** The four bytes of a checksum, most significant first. */
  function CrcBytes(crc: bv32): (s: seq<byte>)
    ensures |s| == 4
  {
    ByteSmall(crc, 24); ByteSmall(crc, 16); ByteSmall(crc, 8); ByteSmall(crc, 0);
    [CrcByte(crc, 24) as int, CrcByte(crc, 16) as int, CrcByte(crc, 8) as int, CrcByte(crc, 0) as int]
  }

  const BLOCK_MAGIC: seq<byte> := [0x41, 0x59, 0x26, 0x53, 0x59]

  datatype BlockImage = BlockImage(crc: bv32, origPtr: nat, plan: Plan)

  /** All bits of a block but the first magic byte, 0x31. */
  ghost function BodyBits(x: BlockImage): seq<bool>
    requires Sendable(x.plan)
  {
    BytesBits(BLOCK_MAGIC) + (BytesBits(CrcBytes(x.crc)) + ([false] + (BitsOf(x.origPtr, 24) + PlanBits(x.plan))))
  }

  /** x stands for block b, sorted by p, with numbered last column s. */
  ghost predicate Describes(x: BlockImage, b: Block, p: seq<nat>, s: seq<byte>) {
    && 0 < |b| <= 900000 && IsRotationOrder(b, p) && x.origPtr < |b| && p[x.origPtr] == 0
    && Sendable(x.plan) && (forall i :: 0 <= i < |b| ==> x.plan.inUse[b[i]])
    && NumberedColumn(b, p, x.plan.inUse, s)
    && var n := UsedBelow(x.plan.inUse, 256);
    && 0 < n <= 256 && AllBelow(s, n) && x.plan.syms == Symbols(n, s) && SameAlphabet(x.plan.lens, n)
  }

  ghost predicate NumberedColumn(b: Block, p: seq<nat>, inUse: seq<bool>, s: seq<byte>) {
    && IsPerm(p, |b|) && |s| == |b| && |inUse| == 256
    && forall i :: 0 <= i < |b| ==> var c := b[Pred(|b|, p[i])]; inUse[c] && s[i] == UsedBelow(inUse, c)
  }

  // ---- choosing tables ----

  lemma {:induction false} FreqOneMore(freq: seq<nat>, v: nat, m: nat)
    requires v < |freq| && m <= |freq|
    ensures FreqTotal(freq[v := freq[v] + 1], m) <= FreqTotal(freq, m) + (if v < m then 1 else 0)
  {
    if m > 0 { FreqOneMore(freq, v, m - 1); }
  }

  lemma {:induction false} FreqNone(freq: seq<nat>, m: nat)
    requires m <= |freq| && forall v :: 0 <= v < |freq| ==> freq[v] == 0
    ensures FreqTotal(freq, m) == m
  {
    if m > 0 { FreqNone(freq, m - 1); }
  }

  ghost predicate FreqsBounded(rfreq: seq<seq<nat>>, alphaSize: nat, total: nat) {
    forall t :: 0 <= t < |rfreq| ==> |rfreq[t]| == alphaSize && FreqTotal(rfreq[t], alphaSize) <= alphaSize + total
  }

  lemma CountedSymbol(rfreq: seq<seq<nat>>, alphaSize: nat, total: nat, bt: nat, v: nat)
    requires FreqsBounded(rfreq, alphaSize, total) && bt < |rfreq| && v < alphaSize
    ensures FreqsBounded(rfreq[bt := rfreq[bt][v := rfreq[bt][v] + 1]], alphaSize, total + 1)
  {
    FreqOneMore(rfreq[bt], v, alphaSize);
  }

  /** Assigns every group of fifty symbols to a table, and counts the symbols by table.  Which
      table a group gets is decided by cost in the source and left open here. */
  method AssignGroups(mtfv: array<nat>, nMTF: nat, nGroups: nat, alphaSize: nat)
    returns (selector: seq<byte>, rfreq: seq<seq<nat>>)
    requires nMTF <= mtfv.Length && 0 < nGroups <= 6 && forall i :: 0 <= i < nMTF ==> mtfv[i] < alphaSize
    ensures |selector| == (nMTF + GROUP_SIZE - 1) / GROUP_SIZE && AllBelow(selector, nGroups)
    ensures |rfreq| == nGroups && FreqsBounded(rfreq, alphaSize, nMTF)
  {
    hide FreqTotal;
    var none: seq<nat> := seq(alphaSize, _ => 0);
    rfreq := seq(nGroups, _ => none);
    FreqNone(none, alphaSize);
    selector := [];
    var gs: nat := 0;
    while gs < nMTF
      invariant gs == if gs == nMTF then nMTF else GROUP_SIZE * |selector|
      invariant gs <= nMTF && |selector| == (gs + GROUP_SIZE - 1) / GROUP_SIZE
      invariant AllBelow(selector, nGroups)
      invariant |rfreq| == nGroups && FreqsBounded(rfreq, alphaSize, gs)
    {
      var ge := gs + GROUP_SIZE - 1;
      if ge >= nMTF { ge := nMTF - 1; }
      var bt: byte :| bt < nGroups;
      selector := selector + [bt];
      for i := gs to ge + 1
        invariant |rfreq| == nGroups && FreqsBounded(rfreq, alphaSize, i)
      {
        CountedSymbol(rfreq, alphaSize, i, bt, mtfv[i]);
        rfreq := rfreq[bt := rfreq[bt][mtfv[i] := rfreq[bt][mtfv[i]] + 1]];
      }
      gs := ge + 1;
    }
  }

  /** Lengths up to 17 that use the code space exactly also fit the decoder's limit of 20. */
  lemma CompleteIsUsable(len: seq<byte>)
    requires 0 < |len| <= MAX_ALPHABET && CompleteCode(len, 17)
    ensures UsableLengths(len)
  {
    hide KraftSum, Pow2;
    KraftHalves(len, 17, |len|);
    KraftHalves(len, 18, |len|);
    KraftHalves(len, 19, |len|);
    assert Pow2(20) == 8 * Pow2(17) by { Pow2Add(3, 17); ThreeBits(); }
  }

  method LengthsFromCounts(freq: seq<nat>, alphaSize: nat) returns (len: seq<byte>)
    requires 2 <= alphaSize <= MAX_ALPHABET && |freq| == alphaSize && FreqTotal(freq, alphaSize) < 0x80_0000
    ensures |len| == alphaSize && UsableLengths(len) && LengthsIn(len, 1, 17)
    ensures exists r :: HuffmanCode(freq, len, 17, r)
  {
    hide FreqTotal, KraftSum, Pow2, HuffmanCode;
    var f, l := new nat[alphaSize], new nat[alphaSize];
    for i := 0 to alphaSize
      modifies f
      invariant forall k :: 0 <= k < i ==> f[k] == freq[k]
    {
      f[i] := freq[i];
    }
    assert f[..] == freq && f[..alphaSize] == freq;
    ghost var rounds := MakeCodeLengths(l, f, alphaSize, 17);
    ghost var lens := l[..alphaSize];
    assert HuffmanCode(freq, lens, 17, rounds);
    len := [];
    for i := 0 to alphaSize
      invariant |len| == i && forall k :: 0 <= k < i ==> len[k] == lens[k]
    {
      assert 1 <= lens[i] <= 17;
      len := len + [l[i]];
    }
    assert len == lens;
    CompleteIsUsable(len);
  }

  /** Two to six tables with usable lengths, and a selector for every group. */
  method ChooseTables(mtfv: array<nat>, nMTF: nat, alphaSize: nat) returns (selector: seq<byte>, lens: seq<seq<byte>>)
    requires 0 < nMTF <= mtfv.Length && nMTF <= 900001 && 2 <= alphaSize <= MAX_ALPHABET
    requires forall i :: 0 <= i < nMTF ==> mtfv[i] < alphaSize
    ensures 2 <= |lens| <= 6 && forall t :: 0 <= t < |lens| ==> |lens[t]| == alphaSize && UsableLengths(lens[t])
    ensures forall t :: 0 <= t < |lens| ==> LengthsIn(lens[t], 1, 17)
    ensures |selector| == (nMTF + GROUP_SIZE - 1) / GROUP_SIZE <= MAX_SELECTORS && AllBelow(selector, |lens|)
  {
    hide UsableLengths, FreqTotal;
    var nGroups := if nMTF < 200 then 2 else if nMTF < 600 then 3 else if nMTF < 1200 then 4
                   else if nMTF < 2400 then 5 else 6;
    var rfreq;
    selector, rfreq := AssignGroups(mtfv, nMTF, nGroups, alphaSize);
    lens := [];
    for t := 0 to nGroups
      invariant |lens| == t && forall k :: 0 <= k < t ==> |lens[k]| == alphaSize && UsableLengths(lens[k])
      invariant forall k :: 0 <= k < t ==> LengthsIn(lens[k], 1, 17)
    {
      var len := LengthsFromCounts(rfreq[t], alphaSize);
      lens := lens + [len];
    }
  }

  // ---- sending a block ----

  lemma SymbolsInAlphabet(n: nat, s: seq<byte>)
    requires 0 < n <= 256 && AllBelow(s, n)
    ensures forall i :: 0 <= i < |Symbols(n, s)| ==> Symbols(n, s)[i] < n + 2
    ensures forall i :: 0 <= i < |Symbols(n, s)| - 1 ==> Symbols(n, s)[i] <= n
  {
    hide RunDigits, Encode;
    EncodeLegal(n, s, |s|);
    var z := Encode(n, s, |s|).zPend;
    forall i | 0 <= i < |RunDigits(z)| ensures RunDigits(z)[i] <= 1 { RunDigitsSmall(z, i); }
  }

  /** What ChooseTables delivers can be sent. */
  lemma PlanSendable(inUse: seq<bool>, n: nat, s: seq<byte>, selector: seq<byte>, lens: seq<seq<byte>>)
    requires |inUse| == 256 && 0 < n <= 256 && AllBelow(s, n) && |s| <= 900000
    requires 2 <= |lens| <= 6 && forall t :: 0 <= t < |lens| ==> |lens[t]| == n + 2 && UsableLengths(lens[t])
    requires |selector| == (|Symbols(n, s)| + GROUP_SIZE - 1) / GROUP_SIZE && AllBelow(selector, |lens|)
    ensures Sendable(Plan(inUse, selector, lens, Symbols(n, s)))
  {
    hide Symbols, UsableLengths, Pow2;
    SymbolsInAlphabet(n, s);
    assert Pow2(15) == 32768 by { FifteenBits(); }
  }

  lemma FifteenBits()
    ensures Pow2(15) == 32768
  {
    assert Pow2(8) == 256;
  }

  /** The pointers, laid out in memory as sixteen-bit halves. */
  method LayOut(ptr: array<nat>) returns (mem: array<nat>)
    requires forall i :: 0 <= i < ptr.Length ==> ptr[i] < 0x1_0000_0000
    ensures fresh(mem) && HoldsPointers(mem[..], ptr[..])
  {
    mem := new nat[2 * ptr.Length];
    for i := 0 to ptr.Length
      modifies mem
      invariant forall k {:trigger ptr[k]} :: 0 <= k < i ==> mem[2 * k] + 0x1_0000 * mem[2 * k + 1] == ptr[k]
    {
      mem[2 * i] := ptr[i] % 0x1_0000;
      mem[2 * i + 1] := ptr[i] / 0x1_0000;
    }
  }

  /** Symbols, tables and codes of a sorted block. */
  method SendSorted(w: BitWriter, block: array<byte>, inUse: seq<bool>, ptr: array<nat>)
    returns (ghost plan: Plan, ghost s: seq<byte>)
    requires w.Valid() && 0 < block.Length <= 900000 && |inUse| == 256 && IsPerm(ptr[..], block.Length)
    requires forall i :: 0 <= i < block.Length ==> inUse[block[i]]
    modifies w`zbits, w`bsBuff, w`bsLive, w`top
    ensures w.Valid() && plan.inUse == inUse && Sendable(plan) && NumberedColumn(block[..], ptr[..], inUse, s)
    ensures var n := UsedBelow(inUse, 256);
            0 < n <= 256 && AllBelow(s, n) && plan.syms == Symbols(n, s) && SameAlphabet(plan.lens, n)
    ensures w.Written() == old(w.Written()) + PlanBits(plan)
  {
    hide Finished, Sendable, PlanBits, BitsOf, BytesBits, TopHolds, Pow2, HoldsPointers, UsableLengths, UsedBelow,
         Symbols;
    ghost var p := ptr[..];
    PermBelow(p, block.Length);
    var mem := LayOut(ptr);
    var nMTF, nInUse, mtfFreq;
    nMTF, nInUse, mtfFreq, s := GenerateMtfValues(mem, block, inUse, p);
    FinishedSays(mem[..], mtfFreq[..], nInUse, s, nMTF);
    var selector, lens := ChooseTables(mem, nMTF, nInUse + 2);
    PlanSendable(inUse, nInUse, s, selector, lens);
    plan := Plan(inUse, selector, lens, Symbols(nInUse, s));
    SendPlan(w, inUse, mem, nMTF, selector, lens);
  }

  lemma PermBelow(p: seq<nat>, n: nat)
    requires IsPerm(p, n)
    ensures |p| == n && forall i :: 0 <= i < |p| ==> p[i] < n
  {
  }

  /** Magic, checksum, sorted order and symbols of one non-empty block go out. */
  method SendBlock(w: BitWriter, block: array<byte>, inUse: seq<bool>, crc: bv32, workFactor: int)
    returns (ghost x: BlockImage, ghost p: seq<nat>, ghost s: seq<byte>)
    requires w.Valid() && 0 < block.Length <= 900000 && |inUse| == 256
    requires forall i :: 0 <= i < block.Length ==> inUse[block[i]]
    modifies w`zbits, w`bsBuff, w`bsLive, w`top, block
    ensures w.Valid() && block[..] == old(block[..])
    ensures Describes(x, block[..], p, s) && x.crc == crc && x.plan.inUse == inUse
    ensures w.Written() == old(w.Written()) + (BitsOf(0x31, 8) + BodyBits(x))
  {
    hide IsRotationOrder, Describes, Sendable, PlanBits, BitsOf, BytesBits, TopHolds, Pow2, CrcBytes, UsedBelow,
         Symbols, NumberedColumn;
    ghost var b, w0 := block[..], w.Written();
    var ptr, origPtr := BlockSort.SortBlock(block, workFactor);
    p := ptr[..];
    OrderIsPerm(b, p);
    SendHeader(w, crc, origPtr);
    ghost var plan;
    plan, s := SendSorted(w, block, inUse, ptr);
    x := BlockImage(crc, origPtr, plan);
    DescribesAll(x, b, p, s, UsedBelow(inUse, 256));
    JoinHeader(w0, BitsOf(0x31, 8), BytesBits(BLOCK_MAGIC), BytesBits(CrcBytes(crc)), [false], BitsOf(origPtr, 24),
               PlanBits(plan));
  }

  lemma OrderIsPerm(b: Block, p: seq<nat>)
    requires IsRotationOrder(b, p)
    ensures IsPerm(p, |b|) && forall i :: 0 <= i < |p| ==> p[i] < |b|
  {
  }

  lemma FinishedSays(mem: seq<nat>, freq: seq<nat>, n: nat, s: seq<byte>, nMTF: nat)
    requires 0 < n <= 256 && AllBelow(s, n) && Finished(mem, freq, n, s, nMTF)
    ensures 0 < nMTF == |Symbols(n, s)| <= |s| + 1 && nMTF <= |mem| && mem[..nMTF] == Symbols(n, s)
    ensures forall i :: 0 <= i < nMTF ==> mem[i] < n + 2
  {
    hide Symbols;
    SymbolsInAlphabet(n, s);
    assert forall i :: 0 <= i < nMTF ==> mem[i] == mem[..nMTF][i];
  }

  lemma DescribesAll(x: BlockImage, b: Block, p: seq<nat>, s: seq<byte>, n: nat)
    requires 0 < |b| <= 900000 && IsRotationOrder(b, p) && x.origPtr < |b| && p[x.origPtr] == 0
    requires Sendable(x.plan) && (forall i :: 0 <= i < |b| ==> x.plan.inUse[b[i]])
    requires NumberedColumn(b, p, x.plan.inUse, s) && n == UsedBelow(x.plan.inUse, 256)
    requires 0 < n <= 256 && AllBelow(s, n) && x.plan.syms == Symbols(n, s) && SameAlphabet(x.plan.lens, n)
    ensures Describes(x, b, p, s)
  {
  }

  lemma JoinHeader(w: seq<bool>, a: seq<bool>, b: seq<bool>, c: seq<bool>, d: seq<bool>, e: seq<bool>, f: seq<bool>)
    ensures (w + (a + (b + (c + (d + e))))) + f == w + (a + (b + (c + (d + (e + f)))))
  {
  }

  method SendHeader(w: BitWriter, crc: bv32, origPtr: nat)
    requires w.Valid() && origPtr < 0x100_0000
    modifies w`zbits, w`bsBuff, w`bsLive, w`top
    ensures w.Valid()
    ensures w.Written() == old(w.Written()) +
              (BitsOf(0x31, 8)
               + (BytesBits(BLOCK_MAGIC) + (BytesBits(CrcBytes(crc)) + ([false] + BitsOf(origPtr, 24)))))
  {
    hide BitsOf, BytesBits, TopHolds, Pow2, CrcBytes;
    ghost var w0 := w.Written();
    PutUChar(w, 0x31);
    PutBytes(w, BLOCK_MAGIC);
    PutBytes(w, CrcBytes(crc));
    PutBit(w, false);
    Pow2Values();
    w.W(24, origPtr);
    JoinFive(w0, BitsOf(0x31, 8), BytesBits(BLOCK_MAGIC), BytesBits(CrcBytes(crc)), [false], BitsOf(origPtr, 24));
  }

  lemma JoinFive(w: seq<bool>, a: seq<bool>, b: seq<bool>, c: seq<bool>, d: seq<bool>, e: seq<bool>)
    ensures ((((w + a) + b) + c) + d) + e == w + (a + (b + (c + (d + e))))
  {
  }

  method PutUChar(w: BitWriter, c: byte)
    requires w.Valid()
    modifies w`zbits, w`bsBuff, w`bsLive, w`top
    ensures w.Valid() && w.Written() == old(w.Written()) + BitsOf(c, 8)
  {
    hide BitsOf, BytesBits, TopHolds, Pow2;
    Pow2Values();
    w.W(8, c);
  }

  method PutBytes(w: BitWriter, s: seq<byte>)
    requires w.Valid()
    modifies w`zbits, w`bsBuff, w`bsLive, w`top
    ensures w.Valid() && w.Written() == old(w.Written()) + BytesBits(s)
  {
    hide BitsOf, TopHolds, Pow2;
    ghost var w0 := w.Written();
    for i := 0 to |s|
      invariant w.Valid() && w.Written() == w0 + BytesBits(s[..i])
    {
      assert s[..i + 1][..i] == s[..i];
      Assoc(w0, BytesBits(s[..i]), BitsOf(s[i], 8));
      PutUChar(w, s[i]);
    }
    assert s[..|s|] == s;
  }

  // ---- receiving a block ----

  /** One byte of a checksum shifted in below the others. */
  function ShiftIn(crc: bv32, c: byte): bv32 {
    (crc << 8) | (c as bv32)
  }

  lemma CrcBytesBack(crc: bv32)
    ensures var s := CrcBytes(crc); ShiftIn(ShiftIn(ShiftIn(ShiftIn(0, s[0]), s[1]), s[2]), s[3]) == crc
  {
    hide ShiftIn, CrcByte, Push;
    ByteSmall(crc, 24);
    ByteSmall(crc, 16);
    ByteSmall(crc, 8);
    ByteSmall(crc, 0);
    var a, b, c, d := CrcByte(crc, 24), CrcByte(crc, 16), CrcByte(crc, 8), CrcByte(crc, 0);
    ShiftByte(0, a);
    ShiftByte(Push(0, a), b);
    ShiftByte(Push(Push(0, a), b), c);
    ShiftByte(Push(Push(Push(0, a), b), c), d);
    Reassemble(crc);
  }

  function Push(x: bv32, c: bv32): bv32 { (x << 8) | c }

  lemma ShiftByte(x: bv32, c: bv32)
    requires c <= 0xff
    ensures c as int < 256 && ShiftIn(x, c as int) == Push(x, c)
  {
    AsIntAndBack(c);
  }

  lemma AsIntAndBack(c: bv32)
    requires c <= 0xff
    ensures c as int < 256 && (c as int) as bv32 == c
  {
  }

  lemma PushFirst(crc: bv32)
    ensures Push(0, CrcByte(crc, 24)) == crc >> 24
  {
  }

  lemma PushSecond(crc: bv32)
    ensures Push(crc >> 24, CrcByte(crc, 16)) == crc >> 16
  {
  }

  lemma PushThird(crc: bv32)
    ensures Push(crc >> 16, CrcByte(crc, 8)) == crc >> 8
  {
  }

  lemma PushFourth(crc: bv32)
    ensures Push(crc >> 8, CrcByte(crc, 0)) == crc
  {
  }

  lemma Reassemble(crc: bv32)
    ensures Push(Push(Push(Push(0, CrcByte(crc, 24)), CrcByte(crc, 16)), CrcByte(crc, 8)), CrcByte(crc, 0)) == crc
  {
    hide Push, CrcByte;
    PushFirst(crc);
    PushSecond(crc);
    PushThird(crc);
    PushFourth(crc);
  }

  method GetUChar(r: BitReader, ghost x: byte, ghost rest: seq<bool>) returns (ok: bool, c: byte)
    requires r.Valid()
    modifies r
    ensures r.Valid()
    ensures |r.Pending()| <= |old(r.Pending())|
    ensures ok ==> |r.Pending()| < |old(r.Pending())|
    ensures ok ==> old(r.Pending()) == BitsOf(c, 8) + r.Pending()
    ensures old(r.Pending()) == BitsOf(x, 8) + rest ==> ok && c == x && r.Pending() == rest
  {
    hide BitsOf, BytesBits, LowHolds, Pow2;
    Pow2Values();
    var v;
    ok, v := GetNumber(r, 8, x, rest);
    c := if ok then v else 0;
  }

  method GetMagic(r: BitReader, magic: seq<byte>, ghost rest: seq<bool>) returns (ok: bool)
    requires r.Valid()
    modifies r
    ensures r.Valid()
    ensures |r.Pending()| <= |old(r.Pending())|
    ensures ok ==> old(r.Pending()) == BytesBits(magic) + r.Pending()
    ensures old(r.Pending()) == BytesBits(magic) + rest ==> ok && r.Pending() == rest
  {
    hide BitsOf, LowHolds, Pow2, BytesBits;
    ghost var honest := r.Pending() == BytesBits(magic) + rest;
    assert magic[0..] == magic && magic[..|magic|] == magic;
    NoBytes(magic);
    for i := 0 to |magic|
      invariant r.Valid() && (honest ==> r.Pending() == BytesBits(magic[i..]) + rest)
      invariant old(r.Pending()) == BytesBits(magic[..i]) + r.Pending()
      invariant |r.Pending()| <= |old(r.Pending())|
    {
      BytesBitsFirst(magic[i..]);
      assert magic[i..][1..] == magic[i + 1..];
      Assoc(BitsOf(magic[i], 8), BytesBits(magic[i + 1..]), rest);
      var uc;
      ok, uc := GetUChar(r, magic[i], BytesBits(magic[i + 1..]) + rest);
      if !ok || uc != magic[i] { ok := false; return; }
      OneMoreByte(magic, i, r.Pending());
    }
    assert BytesBits(magic[|magic|..]) + rest == rest;
    ok := true;
  }

  lemma NoBytes(s: seq<byte>)
    ensures BytesBits(s[..0]) == [] && BytesBits(s[|s|..]) == []
  {
  }

  lemma OneMoreByte(s: seq<byte>, i: nat, rest: seq<bool>)
    requires i < |s|
    ensures BytesBits(s[..i + 1]) + rest == BytesBits(s[..i]) + (BitsOf(s[i], 8) + rest)
  {
    hide BitsOf;
    assert s[..i + 1][..i] == s[..i];
    Assoc(BytesBits(s[..i]), BitsOf(s[i], 8), rest);
  }

  lemma OneMore(x: bv32)
    requires x < 0xff
    ensures (x + 1) as int == x as int + 1 && x + 1 <= 0xff
  {
  }

  lemma {:induction false} WordFor(a: nat) returns (x: bv32)
    requires a < 256
    ensures x as int == a && x <= 0xff
  {
    x := 0;
    if a > 0 {
      var y := WordFor(a - 1);
      OneMore(y);
      x := y + 1;
    }
  }

  lemma ByteThrough(a: byte)
    ensures (a as bv32) <= 0xff && (a as bv32) as int == a
  {
    var x := WordFor(a);
    AsIntAndBack(x);
  }

  lemma WordBytes(a: bv32, b: bv32, c: bv32, d: bv32)
    requires a <= 0xff && b <= 0xff && c <= 0xff && d <= 0xff
    ensures var w := Push(Push(Push(Push(0, a), b), c), d);
            CrcByte(w, 24) == a && CrcByte(w, 16) == b && CrcByte(w, 8) == c && CrcByte(w, 0) == d
  {
  }

  lemma PushIs(x: bv32, c: byte)
    ensures ShiftIn(x, c) == Push(x, c as bv32)
  {
  }

  /** Four bytes read as a checksum are the bytes of that checksum. */
  lemma CrcBytesAre(a: byte, b: byte, c: byte, d: byte)
    ensures CrcBytes(ShiftIn(ShiftIn(ShiftIn(ShiftIn(0, a), b), c), d)) == [a, b, c, d]
  {
    hide ShiftIn, Push, CrcByte;
    ByteThrough(a);
    ByteThrough(b);
    ByteThrough(c);
    ByteThrough(d);
    PushIs(0, a);
    PushIs(Push(0, a as bv32), b);
    PushIs(Push(Push(0, a as bv32), b as bv32), c);
    PushIs(Push(Push(Push(0, a as bv32), b as bv32), c as bv32), d);
    WordBytes(a as bv32, b as bv32, c as bv32, d as bv32);
  }

  method GetUInt32(r: BitReader, ghost x: bv32, ghost rest: seq<bool>) returns (ok: bool, crc: bv32)
    requires r.Valid()
    modifies r
    ensures r.Valid()
    ensures |r.Pending()| <= |old(r.Pending())|
    ensures ok ==> old(r.Pending()) == BytesBits(CrcBytes(crc)) + r.Pending()
    ensures old(r.Pending()) == BytesBits(CrcBytes(x)) + rest ==> ok && crc == x && r.Pending() == rest
  {
    hide BitsOf, LowHolds, Pow2, CrcBytes, BytesBits, ShiftIn;
    ghost var s, honest := CrcBytes(x), r.Pending() == BytesBits(CrcBytes(x)) + rest;
    FourBytes(s, rest);
    crc := 0;
    CrcBytesBack(x);
    var c;
    ok, c := GetUChar(r, s[0], BitsOf(s[1], 8) + (BitsOf(s[2], 8) + (BitsOf(s[3], 8) + rest)));
    if !ok { return; }
    ghost var a0 := c;
    crc := ShiftIn(crc, c);
    ok, c := GetUChar(r, s[1], BitsOf(s[2], 8) + (BitsOf(s[3], 8) + rest));
    if !ok { return; }
    ghost var a1 := c;
    crc := ShiftIn(crc, c);
    ok, c := GetUChar(r, s[2], BitsOf(s[3], 8) + rest);
    if !ok { return; }
    ghost var a2 := c;
    crc := ShiftIn(crc, c);
    ok, c := GetUChar(r, s[3], rest);
    if !ok { return; }
    crc := ShiftIn(crc, c);
    FourBytes([a0, a1, a2, c], r.Pending());
    CrcBytesAre(a0, a1, a2, c);
  }

  lemma FourBytes(s: seq<byte>, rest: seq<bool>)
    requires |s| == 4
    ensures BytesBits(s) + rest == BitsOf(s[0], 8) + (BitsOf(s[1], 8) + (BitsOf(s[2], 8) + (BitsOf(s[3], 8) + rest)))
  {
    hide BitsOf;
    BytesBitsFirst(s);
    BytesBitsFirst(s[1..]);
    BytesBitsFirst(s[1..][1..]);
    BytesBitsFirst(s[1..][1..][1..]);
    assert s[1..][1..][1..][1..] == [];
    assert BytesBits(s[1..][1..][1..][1..]) == [];
  }

  /** Three bytes, the most significant first, are a number of twenty-four bits. */
  method GetOrigPtr(r: BitReader, ghost x: nat, ghost rest: seq<bool>) returns (ok: bool, origPtr: nat)
    requires r.Valid()
    modifies r
    ensures r.Valid()
    ensures |r.Pending()| <= |old(r.Pending())|
    ensures x < 0x100_0000 && old(r.Pending()) == BitsOf(x, 24) + rest ==> ok && origPtr == x && r.Pending() == rest
  {
    hide BitsOf, LowHolds, Pow2, BytesBits;
    origPtr := 0;
    ghost var y := x % 0x100_0000;
    ghost var a, b, c := y / 0x1_0000, (y / 0x100) % 0x100, y % 0x100;
    OrigPtrBits(y, rest);
    var uc;
    ok, uc := GetUChar(r, a, BitsOf(b, 8) + (BitsOf(c, 8) + rest));
    if !ok { return; }
    origPtr := origPtr * 0x100 + uc;
    ok, uc := GetUChar(r, b, BitsOf(c, 8) + rest);
    if !ok { return; }
    origPtr := origPtr * 0x100 + uc;
    ok, uc := GetUChar(r, c, rest);
    if !ok { return; }
    origPtr := origPtr * 0x100 + uc;
  }

  lemma OrigPtrBits(x: nat, rest: seq<bool>)
    requires x < 0x100_0000
    ensures BitsOf(x, 24) + rest ==
              BitsOf(x / 0x1_0000, 8) + (BitsOf((x / 0x100) % 0x100, 8) + (BitsOf(x % 0x100, 8) + rest))
  {
    hide BitsOf, Pow2;
    Pow2Values();
    BitsOfSum(x / 0x100, 16, x % 0x100, 8);
    BitsOfSum(x / 0x1_0000, 8, (x / 0x100) % 0x100, 8);
  }

  /** The header of a block after its first magic byte. */
  method ReceiveHeader(r: BitReader, blockSize100k: nat, ghost x: BlockImage, ghost rest: seq<bool>)
    returns (ok: bool, storedCRC: bv32, randomised: bool, origPtr: nat)
    requires r.Valid()
    modifies r
    ensures r.Valid()
    ensures |r.Pending()| <= |old(r.Pending())|
    ensures x.origPtr <= 10 + 100000 * blockSize100k <= 900010 && old(r.Pending()) ==
              BytesBits(BLOCK_MAGIC) + (BytesBits(CrcBytes(x.crc)) + ([false] + (BitsOf(x.origPtr, 24) + rest))) ==>
              ok && storedCRC == x.crc && !randomised && origPtr == x.origPtr && r.Pending() == rest
    ensures ok ==> BytesBits(BLOCK_MAGIC) + BytesBits(CrcBytes(storedCRC)) <= old(r.Pending())
  {
    hide BitsOf, LowHolds, Pow2, BytesBits, CrcBytes;
    storedCRC, randomised, origPtr := 0, false, 0;
    ghost var r1 := BitsOf(x.origPtr, 24) + rest;
    ok := GetMagic(r, BLOCK_MAGIC, BytesBits(CrcBytes(x.crc)) + ([false] + r1));
    if !ok { return; }
    ok, storedCRC := GetUInt32(r, x.crc, [false] + r1);
    if !ok { return; }
    Assoc(BytesBits(BLOCK_MAGIC), BytesBits(CrcBytes(storedCRC)), r.Pending());
    ok, randomised := GetBit(r);
    if !ok { return; }
    assert ([false] + r1)[1..] == r1;
    ok, origPtr := GetOrigPtr(r, x.origPtr, rest);
    if !ok { return; }
    ok := origPtr <= 10 + 100000 * blockSize100k;
  }

  /** The selectors of this input are stored past the end of their array: their number, fifteen bits
      long, is checked against one only, and as many well-formed ranks follow as make one too many. */
  ghost predicate SelectorsOverrun(pending: seq<bool>) {
    && |pending| >= 18
    && var g, n := Value(pending[..3]), Value(pending[3..18]);
       2 <= g <= 6 && n > MAX_SELECTORS && RanksAhead(pending[18..], g, MAX_SELECTORS + 1)
  }

  /** There is such an input: two tables, 18003 selectors, all of them the first. */
  lemma OverrunHappens()
    ensures SelectorsOverrun(BitsOf(2, 3) + BitsOf(MAX_SELECTORS + 1, 15) + seq(MAX_SELECTORS + 1, _ => false))
  {
    hide BitsOf, Pow2, RanksAhead, Value;
    var a, b, c := BitsOf(2, 3), BitsOf(MAX_SELECTORS + 1, 15), seq(MAX_SELECTORS + 1, _ => false);
    ThreeBits();
    FifteenBits();
    ValueOfBits(2, 3);
    ValueOfBits(MAX_SELECTORS + 1, 15);
    ZerosAreRanks(MAX_SELECTORS + 1, 2);
    var p := a + b + c;
    assert p[..3] == a && p[3..18] == b && p[18..] == c;
  }

  /** The number of tables, and which table each group of symbols uses. */
  method ReceiveSelectorPart(r: BitReader, ghost g: nat, ghost sel: seq<byte>, ghost rest: seq<bool>)
    returns (ok: bool, overrun: bool, nGroups: nat, selector: seq<byte>)
    requires r.Valid() && g <= 256 && AllBelow(sel, g)
    modifies r
    ensures r.Valid()
            && (ok ==> !overrun && 2 <= nGroups <= 6 && AllBelow(selector, nGroups) && |selector| <= MAX_SELECTORS)
    ensures |r.Pending()| <= |old(r.Pending())|
    ensures overrun <==> SelectorsOverrun(old(r.Pending()))
    ensures 2 <= g <= 6 && 0 < |sel| < Pow2(15) && |sel| <= MAX_SELECTORS && old(r.Pending()) ==
              BitsOf(g, 3) + (BitsOf(|sel|, 15) + (SelectorBits(SelectorRanks(g, sel), 0) + rest)) ==>
              ok && nGroups == g && selector == sel && r.Pending() == rest
  {
    hide BitsOf, LowHolds, Pow2, BytesBits, SelectorBits, Value, RanksAhead;
    ThreeBits();
    ghost var pending := r.Pending();
    overrun, selector := false, [];
    ghost var ranks := SelectorRanks(g, sel);
    ghost var r3 := SelectorBits(ranks, 0) + rest;
    assert RanksBelow(ranks, g) by {
      forall k | 0 <= k < |ranks| ensures ranks[k] < g { assert ranks[k] == RankOf(g, sel, k); }
    }
    var nSelectors;
    ok, nGroups := GetNumber(r, 3, g, BitsOf(|sel|, 15) + r3);
    if !ok { return; }
    if nGroups < 2 || nGroups > 6 { ok := false; return; }
    ok, nSelectors := GetNumber(r, 15, |sel|, r3);
    if !ok { return; }
    assert pending[3..][15..] == pending[18..] && pending[3..][..15] == pending[3..18];
    if nSelectors < 1 { ok := false; return; }
    var outcome, selectorMtf := ReceiveSelectors(r, nGroups, nSelectors, ranks, rest);
    ok, overrun := outcome.AllRead?, outcome.Overrun?;
    if !ok { return; }
    var undone := UndoSelectorMtf(selectorMtf, nSelectors, nGroups, sel);
    selector := undone[..nSelectors];
  }

  /** Mapping table, selectors, tables: everything between the header and the symbols. */
  method ReceiveTablesPart(r: BitReader, ghost plan: Plan, ghost rest: seq<bool>)
    returns (ok: bool, overrun: bool, seqToUnseq: seq<byte>, nInUse: nat, selector: seq<byte>, tables: seq<DecodeTable>,
             ghost lens: seq<seq<byte>>, ghost inUse: seq<bool>)
    requires r.Valid() && Sendable(plan) && SameAlphabet(plan.lens, UsedBelow(plan.inUse, 256))
    modifies r
    ensures r.Valid() && (ok ==> !overrun && |selector| <= MAX_SELECTORS)
    ensures |r.Pending()| <= |old(r.Pending())|
    ensures ok ==> 0 < nInUse <= 256 && |seqToUnseq| == 256 && TablesFor(tables, lens) && AllBelow(selector, |lens|)
                   && SameAlphabet(lens, nInUse) && |inUse| == 256 && nInUse == UsedBelow(inUse, 256)
    ensures ok ==> forall c :: 0 <= c < 256 && inUse[c] ==>
                     UsedBelow(inUse, c) < 256 && seqToUnseq[UsedBelow(inUse, c)] == c
    ensures UsedBelow(plan.inUse, 256) > 0 && old(r.Pending()) == TablesPart(plan) + rest ==>
              ok && inUse == plan.inUse && selector == plan.sel && lens == plan.lens && r.Pending() == rest
  {
    hide BitsOf, LowHolds, Pow2, BytesBits, TablesFor, UsableLengths, MappingBits, SelectorBits, TablesBits,
         SelectorRanks, TableFor;
    hide SelectorsOverrun;
    overrun, seqToUnseq, nInUse, selector, tables, lens, inUse := false, [], 0, [], [], [], [];
    PlanFits(plan);
    ghost var honest := UsedBelow(plan.inUse, 256) > 0 && r.Pending() == TablesPart(plan) + rest;
    ghost var r4 := TablesBits(plan.lens, 0) + rest;
    ghost var r1 := BitsOf(|plan.lens|, 3)
                    + (BitsOf(|plan.sel|, 15) + (SelectorBits(SelectorRanks(|plan.lens|, plan.sel), 0) + r4));
    PartsApart(plan, rest);
    var used;
    ok, used := ReceiveMapping(r, plan.inUse, r1);
    if !ok { return; }
    inUse := used[..];
    var map1;
    map1, nInUse := MakeMapsD(used[..]);
    seqToUnseq := map1[..];
    if nInUse == 0 { ok := false; return; }
    var nGroups;
    ok, overrun, nGroups, selector := ReceiveSelectorPart(r, |plan.lens|, plan.sel, r4);
    if !ok { return; }
    var got;
    ok, got := ReceiveTables(r, nGroups, nInUse + 2, plan.lens, rest);
    if !ok { return; }
    lens := got;
    tables := MakeTables(got, nInUse + 2);
  }

  ghost function TablesPart(p: Plan): seq<bool>
    requires Sendable(p)
  {
    MappingBits(p.inUse) + (BitsOf(|p.lens|, 3) + (BitsOf(|p.sel|, 15)
    + (SelectorBits(SelectorRanks(|p.lens|, p.sel), 0) + TablesBits(p.lens, 0))))
  }

  lemma PlanFits(p: Plan)
    requires Sendable(p) && SameAlphabet(p.lens, UsedBelow(p.inUse, 256))
    ensures |p.lens| < Pow2(3) && |p.sel| < Pow2(15) && 2 <= |p.lens| <= 6 && 0 < |p.sel|
    ensures AllBelow(p.sel, |p.lens|) && RanksBelow(SelectorRanks(|p.lens|, p.sel), |p.lens|)
    ensures LengthTables(p.lens, UsedBelow(p.inUse, 256) + 2)
    ensures forall t :: 0 <= t < |p.lens| ==> p.lens[t] != []
  {
    hide KraftSum;
    ThreeBits();
    var m := SelectorRanks(|p.lens|, p.sel);
    forall k | 0 <= k < |m| ensures m[k] < |p.lens| { assert m[k] == RankOf(|p.lens|, p.sel, k); }
    forall t | 0 <= t < |p.lens| ensures UsableLengths(p.lens[t]) {}
  }

  lemma PartsApart(p: Plan, rest: seq<bool>)
    requires Sendable(p)
    ensures TablesPart(p) + rest ==
              MappingBits(p.inUse) + (BitsOf(|p.lens|, 3) + (BitsOf(|p.sel|, 15)
              + (SelectorBits(SelectorRanks(|p.lens|, p.sel), 0) + (TablesBits(p.lens, 0) + rest))))
    ensures PlanBits(p) == TablesPart(p) + CodesBits(p.lens, p.sel, p.syms, 0)
  {
    hide MappingBits, BitsOf, SelectorBits, TablesBits, CodesBits, Codable, UsableLengths, Pow2, SelectorRanks;
    assert forall t :: 0 <= t < |p.lens| ==> p.lens[t] != [] by { UsableMeans(p.lens); }
    Regroup(MappingBits(p.inUse), BitsOf(|p.lens|, 3), BitsOf(|p.sel|, 15),
            SelectorBits(SelectorRanks(|p.lens|, p.sel), 0), TablesBits(p.lens, 0), rest);
    Regroup(MappingBits(p.inUse), BitsOf(|p.lens|, 3), BitsOf(|p.sel|, 15),
            SelectorBits(SelectorRanks(|p.lens|, p.sel), 0), TablesBits(p.lens, 0),
            CodesBits(p.lens, p.sel, p.syms, 0));
  }

  lemma Regroup(a: seq<bool>, b: seq<bool>, c: seq<bool>, d: seq<bool>, e: seq<bool>, f: seq<bool>)
    ensures (a + (b + (c + (d + e)))) + f == a + (b + (c + (d + (e + f))))
  {
  }

  /** What a block leaves behind for the inverse transform. */
  datatype Received = Received(storedCRC: bv32, randomised: bool, origPtr: nat, nblock: nat)

  /** Receives one block up to its column.  Any input is taken; what is accepted has a column
      in tt with its byte counts, and a block that was sent comes back as its last column. */
  method ReceiveBlock(r: BitReader, blockSize100k: nat, ghost x: BlockImage, ghost b: Block, ghost p: seq<nat>,
                      ghost s: seq<byte>, ghost rest: seq<bool>)
    returns (ok: bool, overrun: bool, got: Received, tt: array<nat>, unzftab: array<nat>, ghost column: seq<byte>)
    requires r.Valid() && 1 <= blockSize100k <= 9 && Describes(x, b, p, s)
    modifies r
    ensures ok ==> !overrun
    ensures r.Valid() && fresh(tt) && fresh(unzftab) && tt != unzftab && tt.Length == 100000 * blockSize100k
    ensures |r.Pending()| <= |old(r.Pending())|
    ensures ok ==> Stored(tt[..], got.nblock, unzftab[..], column) && got.origPtr < got.nblock
    ensures ok ==> BytesBits(BLOCK_MAGIC) + BytesBits(CrcBytes(got.storedCRC)) <= old(r.Pending())
    ensures |b| <= 100000 * blockSize100k && old(r.Pending()) == BodyBits(x) + rest ==>
              && ok && got == Received(x.crc, false, x.origPtr, |b|) && r.Pending() == rest
              && IsLastColumn(b, p, column)
  {
    hide BitsOf, LowHolds, Pow2, BytesBits, CrcBytes, PlanBits, TablesPart, CodesBits, IsRotationOrder, UsedBelow,
         TableFor, Describes, Stored, Symbols;
    ghost var plan := x.plan;
    DescribedPlan(x, b, p, s);
    ghost var honest := |b| <= 100000 * blockSize100k && r.Pending() == BodyBits(x) + rest;
    ghost var codes := CodesBits(plan.lens, plan.sel, plan.syms, 0) + rest;
    BodyApart(x, rest);
    tt, unzftab := new nat[100000 * blockSize100k], new nat[256];
    overrun, got, column := false, Received(0, false, 0, 0), [];
    var crc, randomised, origPtr;
    ok, crc, randomised, origPtr := ReceiveHeader(r, blockSize100k, x, TablesPart(plan) + codes);
    if !ok { return; }
    var map1, nInUse, selector, tables;
    ghost var lens, inUse;
    ok, overrun, map1, nInUse, selector, tables, lens, inUse := ReceiveTablesPart(r, plan, codes);
    if !ok { return; }
    var sr := new SymbolReader(r, selector, tables, lens);
    var cb := new ColumnBuffer(tt, nInUse, 100000 * blockSize100k, map1);
    ghost var read;
    if honest { SentIsAcceptable(x, b, p, s, cb.nblockMAX, r.Pending(), rest); }
    ok, read := ReceiveSymbols(sr, cb, plan.syms, rest);
    if !ok { return; }
    unzftab := cb.unzftab;
    got := Received(crc, randomised, origPtr, cb.nblock);
    column := Mapped(map1, cb.out);
    StoredSize(tt[..], cb.nblock, unzftab[..], column);
    if honest {
      ReadBack(x, b, p, s, cb.nblockMAX, read, cb.out, cb.mtf.list[..nInUse]);
      ColumnBack(b, p, s, inUse, map1);
    }
    ok := got.origPtr < cb.nblock;
  }

  /** The parts of a description that the receiver uses. */
  lemma DescribedPlan(x: BlockImage, b: Block, p: seq<nat>, s: seq<byte>)
    requires Describes(x, b, p, s)
    ensures Sendable(x.plan) && |x.plan.inUse| == 256 && Codable(x.plan.lens, x.plan.sel, x.plan.syms)
    ensures SameAlphabet(x.plan.lens, UsedBelow(x.plan.inUse, 256)) && UsedBelow(x.plan.inUse, 256) > 0
    ensures x.origPtr < |b| <= 900000 && NumberedColumn(b, p, x.plan.inUse, s) && |s| == |b|
  {
    hide UsableLengths, Codable, UsedBelow, Symbols, IsRotationOrder;
  }

  lemma BodyApart(x: BlockImage, rest: seq<bool>)
    requires Sendable(x.plan)
    ensures BodyBits(x) + rest == BytesBits(BLOCK_MAGIC)
            + (BytesBits(CrcBytes(x.crc)) + ([false] + (BitsOf(x.origPtr, 24)
              + (TablesPart(x.plan) + (CodesBits(x.plan.lens, x.plan.sel, x.plan.syms, 0) + rest)))))
  {
    hide BytesBits, CrcBytes, BitsOf, TablesPart, CodesBits, Codable, UsableLengths, PlanBits, Pow2;
    PartsApart(x.plan, rest);
    RegroupBody(BytesBits(BLOCK_MAGIC), BytesBits(CrcBytes(x.crc)), [false], BitsOf(x.origPtr, 24), TablesPart(x.plan),
                CodesBits(x.plan.lens, x.plan.sel, x.plan.syms, 0), rest);
  }

  lemma RegroupBody(a: seq<bool>, b: seq<bool>, c: seq<bool>, d: seq<bool>, e: seq<bool>, f: seq<bool>, g: seq<bool>)
    ensures (a + (b + (c + (d + (e + f))))) + g == a + (b + (c + (d + (e + (f + g)))))
  {
  }

  /** The symbols of a described block are acceptable to the receiver, and lie ahead of it. */
  lemma SentIsAcceptable(x: BlockImage, b: Block, p: seq<nat>, s: seq<byte>, limit: nat, pending: seq<bool>,
                         rest: seq<bool>)
    requires Describes(x, b, p, s) && |b| <= limit <= 900000
    requires Codable(x.plan.lens, x.plan.sel, x.plan.syms)
    requires pending == CodesBits(x.plan.lens, x.plan.sel, x.plan.syms, 0) + rest
    ensures Acceptable(UsedBelow(x.plan.inUse, 256), x.plan.syms, limit)
    ensures Ahead(pending, x.plan.lens, x.plan.sel, x.plan.syms, 0, rest)
  {
    hide UsableLengths, UsedBelow, Encode, RunDigits, Decode, EndRun, CodesBits, IsRotationOrder;
    var n := UsedBelow(x.plan.inUse, 256);
    RoundTrip(n, s, limit);
    SymbolsInAlphabet(n, s);
  }

  /** Having read all symbols but the end mark, the decoder has the numbered column. */
  lemma ReadBack(x: BlockImage, b: Block, p: seq<nat>, s: seq<byte>, limit: nat, read: seq<nat>, out: seq<byte>,
                 yy: seq<byte>)
    requires Describes(x, b, p, s) && |b| <= limit <= 900000
    requires x.plan.syms != [] && read == x.plan.syms[..|x.plan.syms| - 1]
    requires var n := UsedBelow(x.plan.inUse, 256);
             n <= 256 && After(n, read, limit).Decoding?
             && Decoding(out, yy, 0, 1) == EndRun(After(n, read, limit), limit)
    ensures out == s
  {
    hide UsableLengths, UsedBelow, Encode, RunDigits, Decode, EndRun, IsRotationOrder, Sendable, Symbols;
    var n, syms := UsedBelow(x.plan.inUse, 256), x.plan.syms;
    RoundTrip(n, s, limit);
    DecodePrefix(n, read, syms[|read|..], limit, |read|);
    assert syms == read + syms[|read|..];
  }

  /** Renumbering undone, the column is the bytes before each sorted rotation. */
  lemma ColumnBack(b: Block, p: seq<nat>, s: seq<byte>, inUse: seq<bool>, map1: seq<byte>)
    requires NumberedColumn(b, p, inUse, s) && |map1| == 256
    requires forall c :: 0 <= c < 256 && inUse[c] ==> UsedBelow(inUse, c) < 256 && map1[UsedBelow(inUse, c)] == c
    ensures IsLastColumn(b, p, Mapped(map1, s))
  {
    var l := Mapped(map1, s);
    forall i | 0 <= i < |b| ensures l[i] == b[Pred(|b|, p[i])] {
      var c := b[Pred(|b|, p[i])];
      assert inUse[c] && s[i] == UsedBelow(inUse, c);
    }
  }
}
