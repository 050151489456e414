/** Receiving the coded symbols of a block: tables change every fifty symbols, runs and ranks
    turn back into bytes, and the bytes are counted as they are stored. */
module SymbolDecoder {
  import opened Rotations
  import opened BurrowsWheeler
  import opened MoveToFront
  import opened SectionedMtf
  import opened Bits
  import opened BitStream
  import opened CanonicalCodes
  import opened BlockFormat
  import opened BlockReader

  /** The symbols from the k-th on, and then rest, are what the input begins with. */
  ghost predicate Ahead(pending: seq<bool>, lens: seq<seq<byte>>, sel: seq<byte>, syms: seq<nat>, k: nat,
                        rest: seq<bool>) {
    && Codable(lens, sel, syms) && k <= |syms|
    && (forall t :: 0 <= t < |lens| ==> UsableLengths(lens[t]))
    && pending == CodesBits(lens, sel, syms, k) + rest
  }

  lemma AheadNext(pending: seq<bool>, p1: seq<bool>, lens: seq<seq<byte>>, sel: seq<byte>, syms: seq<nat>, k: nat,
                  rest: seq<bool>, s: nat)
    requires Ahead(pending, lens, sel, syms, k, rest) && k < |syms|
    requires k / GROUP_SIZE < |sel| && sel[k / GROUP_SIZE] < |lens|
    requires s < |LengthsOf(lens, sel, k)| && Matches(LengthsOf(lens, sel, k), s, pending)
    requires pending == CodeWord(LengthsOf(lens, sel, k), s) + p1
    ensures s == syms[k] && Ahead(p1, lens, sel, syms, k + 1, rest)
  {
    hide CodeWord, UsableLengths, Matches;
    var len := LengthsOf(lens, sel, k);
    var word, tail := CodeWord(len, syms[k]), CodesBits(lens, sel, syms, k + 1);
    Assoc(word, tail, rest);
    OnlyOneMatches(len, s, syms[k], tail + rest);
    assert p1 == pending[|word|..] == tail + rest;
  }

  lemma AheadMatches(pending: seq<bool>, lens: seq<seq<byte>>, sel: seq<byte>, syms: seq<nat>, k: nat, rest: seq<bool>)
    requires Ahead(pending, lens, sel, syms, k, rest) && k < |syms|
    ensures k / GROUP_SIZE < |sel| && sel[k / GROUP_SIZE] < |lens|
    ensures syms[k] < |LengthsOf(lens, sel, k)| && Matches(LengthsOf(lens, sel, k), syms[k], pending)
  {
    hide CodeWord, UsableLengths, Matches;
    var len := LengthsOf(lens, sel, k);
    var word, tail := CodeWord(len, syms[k]), CodesBits(lens, sel, syms, k + 1);
    Assoc(word, tail, rest);
    OnlyOneMatches(len, syms[k], syms[k], tail + rest);
  }

  class SymbolReader {
    const r: BitReader
    const selector: seq<byte>
    const tables: seq<DecodeTable>
    var groupNo: int
    var groupPos: nat
    var gSel: nat
    ghost const lens: seq<seq<byte>>
    /** how many symbols have been read */
    ghost var count: nat

    ghost predicate Valid()
      reads this, r
    {
      && r.Valid() && TablesFor(tables, lens) && AllBelow(selector, |lens|)
      && groupPos <= GROUP_SIZE && -1 <= groupNo < |selector|
      && (groupNo == -1 ==> groupPos == 0)
      && (groupPos > 0 ==> gSel == selector[groupNo])
      && count == GROUP_SIZE * groupNo + (GROUP_SIZE - groupPos)
    }

    constructor (r: BitReader, selector: seq<byte>, tables: seq<DecodeTable>, ghost lens: seq<seq<byte>>)
      requires r.Valid() && TablesFor(tables, lens) && AllBelow(selector, |lens|)
      ensures Valid() && count == 0 && this.r == r && this.selector == selector && this.lens == lens
    {
      this.r, this.selector, this.tables, this.lens := r, selector, tables, lens;
      groupNo, groupPos, gSel, count := -1, 0, 0, 0;
    }

    /** The next symbol, by the table of its group of fifty. */
    method GetMtfVal(ghost syms: seq<nat>, ghost rest: seq<bool>) returns (f: Found)
      requires Valid()
      modifies this, r
      ensures r.Valid() && (f.Symbol? ==> Valid() && count == old(count) + 1)
      ensures |r.Pending()| <= |old(r.Pending())|
      ensures f.Symbol? ==> |r.Pending()| < |old(r.Pending())|
      ensures f.Symbol? ==> exists t :: 0 <= t < |lens| && f.sym < |lens[t]|
      ensures Ahead(old(r.Pending()), lens, selector, syms, old(count), rest) && old(count) < |syms| ==>
                f == Symbol(syms[old(count)]) && Ahead(r.Pending(), lens, selector, syms, count, rest)
    {
      hide TableFor, BitsOf, BytesBits, LowHolds, Ahead, Matches, CodeWord;
      ghost var k, bits := count, r.Pending();
      ghost var honest := Ahead(bits, lens, selector, syms, k, rest) && k < |syms|;
      if honest { AheadMatches(bits, lens, selector, syms, k, rest); }
      if groupPos == 0 {
        groupNo := groupNo + 1;
        if groupNo >= |selector| { return DataError; }
        groupPos := GROUP_SIZE;
        gSel := selector[groupNo];
      }
      groupPos := groupPos - 1;
      count := count + 1;
      assert k / GROUP_SIZE == groupNo;
      ghost var len := lens[gSel];
      assert honest ==> Matches(len, syms[k], bits);
      f := GetSymbol(r, tables[gSel], len);
      if f.Symbol? {
        WordNotEmpty(tables[gSel], len, f.sym, bits);
        if honest { AheadNext(bits, r.Pending(), lens, selector, syms, k, rest, f.sym); }
      }
    }
  }

  lemma WordNotEmpty(t: DecodeTable, len: seq<byte>, s: nat, bits: seq<bool>)
    requires TableFor(t, len) && Matches(len, s, bits)
    ensures s < |len| && |CodeWord(len, s)| >= 1
  {
  }

  // ---- the bytes of the column ----

  /** A column in an array, with its byte counts. */
  ghost predicate Stored(tt: seq<nat>, nblock: nat, unzftab: seq<nat>, column: seq<byte>) {
    && nblock == |column| <= |tt| && |unzftab| == 256
    && (forall i :: 0 <= i < nblock ==> tt[i] == column[i])
    && forall c :: 0 <= c < 256 ==> unzftab[c] == Occ(column, nblock, c)
  }

  lemma OccPrefix(l: seq<byte>, m: seq<byte>, k: nat, c: int)
    requires k <= |l|
    ensures Occ(l + m, k, c) == Occ(l, k, c)
  {
    if k > 0 { OccPrefix(l, m, k - 1, c); }
  }

  lemma OccOfRun(l: seq<byte>, b: byte, es: nat, k: nat, c: int)
    requires k <= es
    ensures Occ(l + Repeat(b, es), |l| + k, c) == Occ(l, |l|, c) + (if c == b then k else 0)
  {
    var m := l + Repeat(b, es);
    if k > 0 {
      OccOfRun(l, b, es, k - 1, c);
      assert m[|l| + (k - 1)] == b;
      assert |l| + k - 1 == |l| + (k - 1);
    } else {
      OccPrefix(l, Repeat(b, es), |l|, c);
    }
  }

  lemma StoreRun(tt: seq<nat>, tt1: seq<nat>, unzftab: seq<nat>, column: seq<byte>, b: byte, es: nat)
    requires Stored(tt, |column|, unzftab, column) && |column| + es <= |tt| == |tt1|
    requires forall i :: 0 <= i < |column| ==> tt1[i] == tt[i]
    requires forall i :: |column| <= i < |column| + es ==> tt1[i] == b
    ensures Stored(tt1, |column| + es, unzftab[b := unzftab[b] + es], column + Repeat(b, es))
  {
    var u1, l1, n1 := unzftab[b := unzftab[b] + es], column + Repeat(b, es), |column| + es;
    forall c | 0 <= c < 256
      ensures u1[c] == Occ(l1, n1, c)
    {
      OccOfRun(column, b, es, es, c);
    }
  }

  /** Bytes numbered by rank, turned back into byte values. */
  function Mapped(map1: seq<byte>, s: seq<byte>): (r: seq<byte>)
    requires |map1| == 256
    ensures |r| == |s| && forall i :: 0 <= i < |s| ==> r[i] == map1[s[i]]
  {
    seq(|s|, i requires 0 <= i < |s| => map1[s[i]])
  }

  lemma MappedConcat(map1: seq<byte>, s: seq<byte>, t: seq<byte>)
    requires |map1| == 256
    ensures Mapped(map1, s + t) == Mapped(map1, s) + Mapped(map1, t)
  {
  }

  lemma MappedRepeat(map1: seq<byte>, c: byte, k: nat)
    requires |map1| == 256
    ensures Mapped(map1, Repeat(c, k)) == Repeat(map1[c], k)
  {
  }

  /** Positions below n of the whole list behave as a list of n entries. */
  lemma ToFrontBelowN(l: seq<byte>, j: nat, n: nat)
    requires j < n <= |l|
    ensures ToFront(l, j)[..n] == ToFront(l[..n], j)
  {
    forall k | 0 <= k < n ensures ToFront(l, j)[..n][k] == ToFront(l[..n], j)[k] {
      ToFrontEntries(l, j, k);
      ToFrontEntries(l[..n], j, k);
    }
  }

  /** Where the decoded bytes go, and the state that turns symbols into bytes. */
  class ColumnBuffer {
    const tt: array<nat>
    const unzftab: array<nat>
    const mtf: SectionedList
    const seqToUnseq: seq<byte>
    const nInUse: nat
    const nblockMAX: nat
    var nblock: nat
    /** the numbered bytes stored so far */
    ghost var out: seq<byte>

    ghost predicate Valid()
      reads this, tt, unzftab, mtf, mtf.mtfa, mtf.mtfbase
    {
      && mtf.Valid() && |mtf.list| == 256 && 0 < nInUse <= 256 && |seqToUnseq| == 256
      && nblockMAX <= tt.Length && tt != unzftab && tt != mtf.mtfbase && unzftab != mtf.mtfbase
      && tt as object != mtf.mtfa && unzftab as object != mtf.mtfa
      && nblock <= nblockMAX
      && Stored(tt[..], nblock, unzftab[..], Mapped(seqToUnseq, out))
    }

    /** Between two symbols that do not belong to one run: the abstract decoder's state. */
    ghost predicate At(d: Decoding)
      reads this, mtf
    {
      |mtf.list| >= nInUse && d == Decoding(out, mtf.list[..nInUse], 0, 1)
    }

    constructor (tt: array<nat>, nInUse: nat, nblockMAX: nat, seqToUnseq: seq<byte>)
      requires nblockMAX <= tt.Length && |seqToUnseq| == 256 && 0 < nInUse <= 256
      ensures Valid() && At(Decoding([], Initial(nInUse), 0, 1)) && this.tt == tt && this.nInUse == nInUse
      ensures this.nblockMAX == nblockMAX && this.seqToUnseq == seqToUnseq
      ensures fresh(unzftab) && fresh(mtf) && fresh(mtf.mtfa) && fresh(mtf.mtfbase)
    {
      this.tt, this.nInUse, this.nblockMAX, this.seqToUnseq := tt, nInUse, nblockMAX, seqToUnseq;
      unzftab := new nat[256](_ => 0);
      mtf := new SectionedList();
      nblock, out := 0, [];
      new;
      hide Laid;
      assert mtf.list[..nInUse] == Initial(nInUse);
      assert Mapped(seqToUnseq, out) == [];
      EmptyStored(tt[..], unzftab[..]);
    }

    /** es copies of the byte in front, unless the block has no room for them. */
    method AppendRun(es0: nat) returns (ok: bool)
      requires Valid()
      modifies this`nblock, this`out, tt, unzftab
      ensures ok <==> |old(out)| + es0 <= nblockMAX
      ensures ok ==> Valid() && out == old(out) + Repeat(mtf.list[0], es0)
    {
      hide Stored, Occ, Laid;
      ghost var t0, u0, column, n0 := tt[..], unzftab[..], Mapped(seqToUnseq, out), nblock;
      StoredSize(t0, nblock, u0, column);
      var front := mtf.Front();
      var uc := seqToUnseq[front];
      unzftab[uc] := unzftab[uc] + es0;
      var es := es0;
      while es > 0
        invariant 0 <= es <= es0 && nblock == n0 + (es0 - es) <= nblockMAX
        invariant forall i :: 0 <= i < n0 ==> tt[i] == t0[i]
        invariant forall i :: n0 <= i < nblock ==> tt[i] == uc
        modifies tt, this`nblock
      {
        if nblock >= nblockMAX { return false; }
        tt[nblock] := uc;
        nblock := nblock + 1;
        es := es - 1;
      }
      StoreRun(t0, tt[..], u0, column, uc, es0);
      assert unzftab[..] == u0[uc := u0[uc] + es0];
      MappedConcat(seqToUnseq, out, Repeat(front, es0));
      MappedRepeat(seqToUnseq, front, es0);
      out := out + Repeat(front, es0);
      assert mtf.Valid();
      assert Stored(tt[..], nblock, unzftab[..], Mapped(seqToUnseq, out));
      ok := true;
    }

    /** Entry nn of the list, which moves to the front. */
    method AppendRank(nn: nat) returns (ok: bool)
      requires Valid() && nn < nInUse
      modifies this`nblock, this`out, tt, unzftab, mtf, mtf.mtfa, mtf.mtfbase
      ensures ok <==> |old(out)| < nblockMAX
      ensures ok ==> Valid() && out == old(out) + [old(mtf.list)[nn]] && mtf.list == ToFront(old(mtf.list), nn)
    {
      hide Stored, Occ, Laid, ToFront;
      ghost var t0, u0, column := tt[..], unzftab[..], Mapped(seqToUnseq, out);
      StoredSize(t0, nblock, u0, column);
      if nblock >= nblockMAX { return false; }
      var uc := mtf.Take(nn);
      var c := seqToUnseq[uc];
      unzftab[c] := unzftab[c] + 1;
      tt[nblock] := c;
      nblock := nblock + 1;
      StoreRun(t0, tt[..], u0, column, c, 1);
      assert unzftab[..] == u0[c := u0[c] + 1];
      MappedConcat(seqToUnseq, out, [uc]);
      MappedRepeat(seqToUnseq, uc, 1);
      assert [uc] == Repeat(uc, 1);
      out := out + [uc];
      ok := true;
    }
  }

  lemma EmptyStored(tt: seq<nat>, unzftab: seq<nat>)
    requires |unzftab| == 256 && forall c :: 0 <= c < 256 ==> unzftab[c] == 0
    ensures Stored(tt, 0, unzftab, [])
  {
  }

  lemma StoredSize(tt: seq<nat>, nblock: nat, unzftab: seq<nat>, column: seq<byte>)
    requires Stored(tt, nblock, unzftab, column)
    ensures nblock == |column| <= |tt| && |unzftab| == 256
  {
  }

  // ---- the loop over the symbols ----

  /** The abstract decoder after the symbols read so far. */
  function After(n: nat, read: seq<nat>, limit: nat): Decoding
    requires n <= 256
  {
    Decode(n, read, limit, |read|)
  }

  lemma AfterNext(n: nat, read: seq<nat>, sym: nat, limit: nat)
    requires n <= 256
    ensures After(n, read + [sym], limit) == Step(After(n, read, limit), sym, limit)
  {
    DecodeLast(n, read, sym, limit);
  }

  /** Symbols an encoder may have sent: one end mark, at the end, and nothing the decoder rejects. */
  ghost predicate Acceptable(n: nat, syms: seq<nat>, limit: nat) {
    && 0 < n <= 256 && 0 < |syms| && syms[|syms| - 1] == EndOfBlock(n)
    && (forall k :: 0 <= k < |syms| - 1 ==> syms[k] <= n)
    && Decode(n, syms, limit, |syms| - 1).Decoding?
    && EndRun(Decode(n, syms, limit, |syms| - 1), limit).Decoding?
  }

  lemma {:induction false} RejectionStays(n: nat, syms: seq<nat>, limit: nat, k: nat, m: nat)
    requires n <= 256 && k <= m <= |syms| && Decode(n, syms, limit, m).Decoding?
    ensures Decode(n, syms, limit, k).Decoding?
    decreases m
  {
    hide TakeDigit, TakeRank, EndRun, Initial;
    if k < m { RejectionStays(n, syms, limit, k, m - 1); }
  }

  /** No symbol of an acceptable sequence is rejected where it stands. */
  lemma AcceptedAt(n: nat, syms: seq<nat>, limit: nat, k: nat)
    requires Acceptable(n, syms, limit) && k < |syms|
    ensures var d := After(n, syms[..k], limit);
            && d.Decoding?
            && (syms[k] <= 1 ==> TakeDigit(d, syms[k]).Decoding?)
            && (syms[k] > 1 ==> EndRun(d, limit).Decoding?)
            && (1 < syms[k] <= n ==> TakeRank(EndRun(d, limit), syms[k], limit).Decoding?)
            && (syms[k] == n + 1 <==> k == |syms| - 1)
  {
    hide TakeDigit, TakeRank, EndRun, Initial, Decode, Step;
    DecodePrefix(n, syms[..k], syms[k..], limit, k);
    assert syms == syms[..k] + syms[k..];
    RejectionStays(n, syms, limit, k, |syms| - 1);
    if k < |syms| - 1 {
      RejectionStays(n, syms, limit, k + 1, |syms| - 1);
      StepTaken(n, syms, limit, k);
    }
  }

  lemma StepTaken(n: nat, syms: seq<nat>, limit: nat, k: nat)
    requires n <= 256 && k < |syms| && Decode(n, syms, limit, k + 1).Decoding?
    ensures var d := Decode(n, syms, limit, k);
            && d.Decoding?
            && (syms[k] <= 1 ==> TakeDigit(d, syms[k]).Decoding?)
            && (syms[k] > 1 ==> EndRun(d, limit).Decoding? && TakeRank(EndRun(d, limit), syms[k], limit).Decoding?)
  {
    hide TakeDigit, TakeRank, EndRun, Initial;
    var d := Decode(n, syms, limit, k);
    assert Decode(n, syms, limit, k + 1) == Step(d, syms[k], limit);
  }

  /** The reader has passed read and holds next; both belong to what was sent. */
  ghost predicate OnTrack(pending: seq<bool>, lens: seq<seq<byte>>, sel: seq<byte>, n: nat, limit: nat,
                          syms: seq<nat>, rest: seq<bool>, read: seq<nat>, next: nat) {
    && Acceptable(n, syms, limit)
    && |read| < |syms| && read == syms[..|read|] && next == syms[|read|]
    && Ahead(pending, lens, sel, syms, |read| + 1, rest)
  }

  lemma OnTrackNext(p0: seq<bool>, p1: seq<bool>, lens: seq<seq<byte>>, sel: seq<byte>, n: nat, limit: nat,
                    syms: seq<nat>, rest: seq<bool>, read: seq<nat>, next: nat, next1: nat)
    requires OnTrack(p0, lens, sel, n, limit, syms, rest, read, next) && |read| + 1 < |syms|
    requires next1 == syms[|read| + 1] && Ahead(p1, lens, sel, syms, |read| + 2, rest)
    ensures OnTrack(p1, lens, sel, n, limit, syms, rest, read + [next], next1)
  {
    hide Acceptable, Ahead;
    assert syms[..|read| + 1] == syms[..|read|] + [syms[|read|]];
  }

  lemma OnTrackSays(pending: seq<bool>, lens: seq<seq<byte>>, sel: seq<byte>, n: nat, limit: nat,
                    syms: seq<nat>, rest: seq<bool>, read: seq<nat>, next: nat)
    requires OnTrack(pending, lens, sel, n, limit, syms, rest, read, next)
    ensures n <= 256 && Ahead(pending, lens, sel, syms, |read| + 1, rest)
    ensures var d := After(n, read, limit);
            && d.Decoding?
            && (next <= 1 ==> TakeDigit(d, next).Decoding?)
            && (next > 1 ==> EndRun(d, limit).Decoding?)
            && (1 < next <= n ==> TakeRank(EndRun(d, limit), next, limit).Decoding?)
    ensures next != n + 1 ==> |read| + 1 < |syms|
    ensures next == n + 1 ==> |read| + 1 == |syms| && read == syms[..|syms| - 1]
  {
    hide Acceptable, Ahead, TakeDigit, TakeRank, EndRun, Decode;
    AcceptableSize(n, syms, limit);
    AcceptedAt(n, syms, limit, |read|);
  }

  /** Every table codes the same n + 2 symbols. */
  ghost predicate SameAlphabet(lens: seq<seq<byte>>, n: nat) {
    forall t :: 0 <= t < |lens| ==> |lens[t]| == n + 2
  }

  /** Reader and buffer agree with the abstract decoder, and next is about to be looked at. */
  ghost predicate Receiving(sr: SymbolReader, cb: ColumnBuffer, read: seq<nat>, next: nat)
    reads sr, sr.r, cb, cb.tt, cb.unzftab, cb.mtf, cb.mtf.mtfa, cb.mtf.mtfbase
  {
    && sr.Valid() && cb.Valid() && SameAlphabet(sr.lens, cb.nInUse)
    && sr.count == |read| + 1 && next <= cb.nInUse + 1
    && var d := After(cb.nInUse, read, cb.nblockMAX);
    && d.Decoding? && cb.At(EndRun(d, cb.nblockMAX))
    && (next <= 1 ==> d.run == 0 && d.weight == 1)
  }

  /** The next symbol, which is in the alphabet. */
  method NextSym(sr: SymbolReader, n: nat, ghost limit: nat, ghost syms: seq<nat>, ghost rest: seq<bool>,
                 ghost read: seq<nat>, ghost next: nat) returns (ok: bool, sym: nat)
    requires sr.Valid() && SameAlphabet(sr.lens, n) && sr.count == |read| + 1 && n <= 256
    modifies sr, sr.r
    ensures sr.r.Valid() && (ok ==> sr.Valid() && sr.count == |read| + 2 && sym <= n + 1)
    ensures |sr.r.Pending()| <= |old(sr.r.Pending())|
    ensures ok ==> |sr.r.Pending()| < |old(sr.r.Pending())|
    ensures next != n + 1 && OnTrack(old(sr.r.Pending()), sr.lens, sr.selector, n, limit, syms, rest, read, next) ==>
              ok && OnTrack(sr.r.Pending(), sr.lens, sr.selector, n, limit, syms, rest, read + [next], sym)
  {
    hide OnTrack, Ahead, After, TablesFor, BitsOf, BytesBits, LowHolds;
    ghost var p0 := sr.r.Pending();
    ghost var honest := next != n + 1 && OnTrack(p0, sr.lens, sr.selector, n, limit, syms, rest, read, next);
    if honest { OnTrackSays(p0, sr.lens, sr.selector, n, limit, syms, rest, read, next); }
    var f := sr.GetMtfVal(syms, rest);
    sym := 0;
    ok := f.Symbol?;
    if ok {
      sym := f.sym;
      if honest { OnTrackNext(p0, sr.r.Pending(), sr.lens, sr.selector, n, limit, syms, rest, read, next, sym); }
    }
  }

  /** Digits up to the first symbol that is none; the run they spell is one less than es + 1. */
  method ReceiveDigits(sr: SymbolReader, n: nat, ghost limit: nat, first: nat, ghost d0: Decoding,
                       ghost read0: seq<nat>,
                       ghost syms: seq<nat>, ghost rest: seq<bool>)
    returns (ok: bool, es: int, nextSym: nat, ghost read: seq<nat>)
    requires sr.Valid() && SameAlphabet(sr.lens, n) && sr.count == |read0| + 1 && 0 < n <= 256 && first <= 1
    requires d0 == After(n, read0, limit) && d0.Decoding? && d0.run == 0 && d0.weight == 1
    modifies sr, sr.r
    ensures sr.r.Valid()
    ensures |sr.r.Pending()| <= |old(sr.r.Pending())|
    ensures ok ==>
              sr.Valid() && sr.count == |read| + 1 && 1 < nextSym <= n + 1 && |sr.r.Pending()| < |old(sr.r.Pending())|
    ensures ok ==>
              var d := After(n, read, limit);
              d.Decoding? && d.out == d0.out && d.yy == d0.yy && d.run == es + 1 && es >= 0
    ensures OnTrack(old(sr.r.Pending()), sr.lens, sr.selector, n, limit, syms, rest, read0, first) ==>
              ok && OnTrack(sr.r.Pending(), sr.lens, sr.selector, n, limit, syms, rest, read, nextSym)
  {
    hide OnTrack, Ahead, After, TablesFor, BitsOf, BytesBits, LowHolds, Decode, EndRun, TakeRank;
    ghost var honest := OnTrack(sr.r.Pending(), sr.lens, sr.selector, n, limit, syms, rest, read0, first);
    es, nextSym, read := -1, first, read0;
    var N: nat := 1;
    while true
      invariant sr.Valid() && sr.count == |read| + 1 && nextSym <= 1 && es >= -1
      invariant |sr.r.Pending()| <= |old(sr.r.Pending())|
      invariant After(n, read, limit) == Decoding(d0.out, d0.yy, es + 1, N)
      invariant honest ==> OnTrack(sr.r.Pending(), sr.lens, sr.selector, n, limit, syms, rest, read, nextSym)
      invariant es == -1 ==> N == 1
      invariant N >= 1
      decreases |sr.r.Pending()|
    {
      if honest { OnTrackSays(sr.r.Pending(), sr.lens, sr.selector, n, limit, syms, rest, read, nextSym); }
      if N >= MAX_WEIGHT { ok := false; return; }
      AfterNext(n, read, nextSym, limit);
      if nextSym == RUNA { es := es + (0 + 1) * N; } else { es := es + (1 + 1) * N; }
      N := N * 2;
      var sym;
      ok, sym := NextSym(sr, n, limit, syms, rest, read, nextSym);
      if !ok { return; }
      read := read + [nextSym];
      nextSym := sym;
      if nextSym > 1 { break; }
    }
    ok := true;
  }

  /** A whole run: its digits, and then its bytes. */
  method ReceiveRun(sr: SymbolReader, cb: ColumnBuffer, first: nat, ghost read0: seq<nat>,
                    ghost syms: seq<nat>, ghost rest: seq<bool>)
    returns (ok: bool, nextSym: nat, ghost read: seq<nat>)
    requires Receiving(sr, cb, read0, first) && first <= 1
    modifies sr, sr.r, cb`nblock, cb`out, cb.tt, cb.unzftab
    ensures sr.r.Valid() && (ok ==> |sr.r.Pending()| < |old(sr.r.Pending())|)
    ensures |sr.r.Pending()| <= |old(sr.r.Pending())|
    ensures ok ==> Receiving(sr, cb, read, nextSym)
    ensures OnTrack(old(sr.r.Pending()), sr.lens, sr.selector, cb.nInUse, cb.nblockMAX, syms, rest, read0, first) ==>
              ok && OnTrack(sr.r.Pending(), sr.lens, sr.selector, cb.nInUse, cb.nblockMAX, syms, rest, read, nextSym)
  {
    hide OnTrack, Ahead, After, TablesFor, BitsOf, BytesBits, LowHolds, TakeRank, TakeDigit, Stored, Laid, Mapped;
    ghost var n, limit, d0 := cb.nInUse, cb.nblockMAX, After(cb.nInUse, read0, cb.nblockMAX);
    var es;
    ok, es, nextSym, read := ReceiveDigits(sr, cb.nInUse, limit, first, d0, read0, syms, rest);
    if !ok { return; }
    if OnTrack(sr.r.Pending(), sr.lens, sr.selector, n, limit, syms, rest, read, nextSym) {
      OnTrackSays(sr.r.Pending(), sr.lens, sr.selector, n, limit, syms, rest, read, nextSym);
    }
    es := es + 1;
    ok := cb.AppendRun(es);
  }

  /** One rank symbol. */
  method ReceiveRank(sr: SymbolReader, cb: ColumnBuffer, sym: nat, ghost read0: seq<nat>,
                     ghost syms: seq<nat>, ghost rest: seq<bool>)
    returns (ok: bool, nextSym: nat, ghost read: seq<nat>)
    requires Receiving(sr, cb, read0, sym) && 1 < sym <= cb.nInUse
    modifies sr, sr.r, cb`nblock, cb`out, cb.tt, cb.unzftab, cb.mtf, cb.mtf.mtfa, cb.mtf.mtfbase
    ensures sr.r.Valid() && (ok ==> |sr.r.Pending()| < |old(sr.r.Pending())|)
    ensures |sr.r.Pending()| <= |old(sr.r.Pending())|
    ensures ok ==> Receiving(sr, cb, read, nextSym)
    ensures OnTrack(old(sr.r.Pending()), sr.lens, sr.selector, cb.nInUse, cb.nblockMAX, syms, rest, read0, sym) ==>
              ok && OnTrack(sr.r.Pending(), sr.lens, sr.selector, cb.nInUse, cb.nblockMAX, syms, rest, read, nextSym)
  {
    hide OnTrack, Ahead, After, TablesFor, BitsOf, BytesBits, LowHolds, EndRun, TakeDigit, Stored, Laid, Mapped,
         ToFront;
    var n := cb.nInUse;
    ghost var limit, l0 := cb.nblockMAX, cb.mtf.list;
    nextSym, read := 0, read0 + [sym];
    if OnTrack(sr.r.Pending(), sr.lens, sr.selector, n, limit, syms, rest, read0, sym) {
      OnTrackSays(sr.r.Pending(), sr.lens, sr.selector, n, limit, syms, rest, read0, sym);
    }
    AfterNext(n, read0, sym, limit);
    ToFrontBelowN(l0, sym - 1, n);
    ok := cb.AppendRank(sym - 1);
    if !ok { return; }
    EndRunNone(After(n, read, limit), limit);
    ok, nextSym := NextSym(sr, n, limit, syms, rest, read0, sym);
  }

  lemma EndRunNone(d: Decoding, limit: nat)
    requires d.Decoding? && d.run == 0
    ensures EndRun(d, limit) == Decoding(d.out, d.yy, 0, 1)
  {
  }

  /** The whole loop.  Whatever the input, a block is accepted only when the symbols read, up
      to the first end mark, decode to what is stored; and symbols that were sent are read back. */
  method ReceiveSymbols(sr: SymbolReader, cb: ColumnBuffer, ghost syms: seq<nat>, ghost rest: seq<bool>)
    returns (ok: bool, ghost read: seq<nat>)
    requires sr.Valid() && cb.Valid() && SameAlphabet(sr.lens, cb.nInUse) && sr.count == 0
    requires cb.At(Decoding([], Initial(cb.nInUse), 0, 1))
    modifies sr, sr.r, cb`nblock, cb`out, cb.tt, cb.unzftab, cb.mtf, cb.mtf.mtfa, cb.mtf.mtfbase
    ensures sr.r.Valid()
    ensures |sr.r.Pending()| <= |old(sr.r.Pending())|
    ensures ok ==> cb.Valid() && After(cb.nInUse, read, cb.nblockMAX).Decoding?
                   && cb.At(EndRun(After(cb.nInUse, read, cb.nblockMAX), cb.nblockMAX))
    ensures Acceptable(cb.nInUse, syms, cb.nblockMAX)
            && Ahead(old(sr.r.Pending()), sr.lens, sr.selector, syms, 0, rest) ==>
              ok && syms != [] && read == syms[..|syms| - 1] && sr.r.Pending() == rest
  {
    hide OnTrack, Ahead, TablesFor, BitsOf, BytesBits, LowHolds, TakeRank, TakeDigit, Stored, Laid, Mapped;
    var n := cb.nInUse;
    ghost var limit, p0 := cb.nblockMAX, sr.r.Pending();
    ghost var honest := Acceptable(n, syms, limit) && Ahead(p0, sr.lens, sr.selector, syms, 0, rest);
    read := [];
    var EOB := n + 1;
    EndRunNone(After(n, read, limit), limit);
    var f := sr.GetMtfVal(syms, rest);
    if !f.Symbol? { ok := false; return; }
    var nextSym: nat := f.sym;
    if honest { TrackStart(sr.r.Pending(), sr.lens, sr.selector, n, limit, syms, rest, nextSym); }
    hide After, Acceptable, EndRun;
    while nextSym != EOB
      invariant Receiving(sr, cb, read, nextSym)
      invariant honest ==> OnTrack(sr.r.Pending(), sr.lens, sr.selector, n, limit, syms, rest, read, nextSym)
      decreases |sr.r.Pending()|
    {
      if nextSym == RUNA || nextSym == RUNB {
        ok, nextSym, read := ReceiveRun(sr, cb, nextSym, read, syms, rest);
      } else {
        ok, nextSym, read := ReceiveRank(sr, cb, nextSym, read, syms, rest);
      }
      if !ok { return; }
    }
    if honest {
      OnTrackSays(sr.r.Pending(), sr.lens, sr.selector, n, limit, syms, rest, read, nextSym);
      NothingAhead(sr.r.Pending(), sr.lens, sr.selector, syms, rest);
    }
    ok := true;
  }

  lemma TrackStart(pending: seq<bool>, lens: seq<seq<byte>>, sel: seq<byte>, n: nat, limit: nat,
                   syms: seq<nat>, rest: seq<bool>, next: nat)
    requires Acceptable(n, syms, limit) && next == syms[0] && Ahead(pending, lens, sel, syms, 1, rest)
    ensures OnTrack(pending, lens, sel, n, limit, syms, rest, [], next)
  {
    hide Acceptable, Ahead;
    assert n <= 256 && 0 < |syms| by { AcceptableSize(n, syms, limit); }
  }

  lemma AcceptableSize(n: nat, syms: seq<nat>, limit: nat)
    requires Acceptable(n, syms, limit)
    ensures n <= 256 && 0 < |syms|
  {
  }

  lemma NothingAhead(pending: seq<bool>, lens: seq<seq<byte>>, sel: seq<byte>, syms: seq<nat>, rest: seq<bool>)
    requires Ahead(pending, lens, sel, syms, |syms|, rest)
    ensures pending == rest
  {
    assert CodesBits(lens, sel, syms, |syms|) + rest == rest;
  }
}
