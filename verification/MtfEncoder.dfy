/** The encoder of the second stage, working in place: symbols of sixteen bits are written
    over the very memory whose 32-bit words are still being read. */
module MtfEncoder {
  import opened Rotations
  import opened MoveToFront

  // ---- the map of bytes in use ----

  function UsedBelow(inUse: seq<bool>, x: nat): (r: nat)
    requires x <= |inUse|
    ensures r <= x
  {
    if x == 0 then 0 else UsedBelow(inUse, x - 1) + (if inUse[x - 1] then 1 else 0)
  }

  lemma {:induction false} UsedMonotone(inUse: seq<bool>, x: nat, y: nat)
    requires x <= y <= |inUse|
    ensures UsedBelow(inUse, x) <= UsedBelow(inUse, y)
    ensures x < y && inUse[x] ==> UsedBelow(inUse, x) < UsedBelow(inUse, y)
    decreases y
  {
    if x < y { UsedMonotone(inUse, x, y - 1); }
  }

  /** Numbers the bytes in use in ascending order. */
  method MakeMapsE(inUse: seq<bool>) returns (unseqToSeq: array<byte>, nInUse: nat)
    requires |inUse| == 256
    ensures fresh(unseqToSeq) && unseqToSeq.Length == 256 && nInUse == UsedBelow(inUse, 256)
    ensures forall x :: 0 <= x < 256 && inUse[x] ==> unseqToSeq[x] == UsedBelow(inUse, x)
  {
    unseqToSeq := new byte[256];
    nInUse := 0;
    for i := 0 to 256
      invariant nInUse == UsedBelow(inUse, i)
      invariant forall x :: 0 <= x < i && inUse[x] ==> unseqToSeq[x] == UsedBelow(inUse, x)
    {
      if inUse[i] {
        unseqToSeq[i] := nInUse;
        nInUse := nInUse + 1;
      }
    }
  }

  /** The decoder's map back: the bytes in use, in ascending order. */
  method MakeMapsD(inUse: seq<bool>) returns (seqToUnseq: array<byte>, nInUse: nat)
    requires |inUse| == 256
    ensures fresh(seqToUnseq) && seqToUnseq.Length == 256 && nInUse == UsedBelow(inUse, 256)
    ensures forall x :: 0 <= x < 256 && inUse[x] ==>
              UsedBelow(inUse, x) < nInUse && seqToUnseq[UsedBelow(inUse, x)] == x
  {
    seqToUnseq := new byte[256];
    nInUse := 0;
    for i := 0 to 256
      invariant nInUse == UsedBelow(inUse, i)
      invariant forall x :: 0 <= x < i && inUse[x] ==>
                  UsedBelow(inUse, x) < nInUse && seqToUnseq[UsedBelow(inUse, x)] == x
    {
      if inUse[i] {
        seqToUnseq[nInUse] := i;
        nInUse := nInUse + 1;
      }
    }
  }

  // ---- memory ----

  /** Word i of a memory of sixteen-bit cells. */
  function Word(mem: seq<nat>, i: nat): nat
    requires 2 * i + 1 < |mem|
  {
    mem[2 * i] + 0x1_0000 * mem[2 * i + 1]
  }

  /** The column read through the sorted pointers held in memory, with bytes renumbered. */
  function Column(block: seq<byte>, ptr: seq<nat>, unseqToSeq: seq<byte>): (s: seq<byte>)
    requires IsPerm(ptr, |block|) && |unseqToSeq| == 256
    ensures |s| == |block|
    ensures forall i :: 0 <= i < |block| ==> s[i] == unseqToSeq[block[Pred(|block|, ptr[i])]]
  {
    seq(|block|, i requires 0 <= i < |block| && ptr[i] < |block| => unseqToSeq[block[Pred(|block|, ptr[i])]])
  }

  // ---- one step ----

  /** Finds c in the list by bubbling entries down as it passes them, and puts it first. */
  method MoveFront(yy: array<byte>, n: nat, c: byte) returns (j: nat)
    requires n <= yy.Length && c in yy[..n] && yy[0] != c
    modifies yy
    ensures j == IndexOf(old(yy[..n]), c) && yy[..n] == ToFront(old(yy[..n]), j)
  {
    ghost var l := yy[..n];
    ghost var at := IndexOf(l, c);
    assert l[0] != c;
    var rtmp := yy[1];
    yy[1] := yy[0];
    j := 1;
    while c != rtmp
      invariant 1 <= j <= at < n && rtmp == l[j]
      invariant forall k :: 1 <= k <= j ==> yy[k] == l[k - 1]
      invariant forall k :: j < k < n ==> yy[k] == l[k]
      decreases at - j
    {
      j := j + 1;
      var rtmp2 := rtmp;
      rtmp := yy[j];
      yy[j] := rtmp2;
    }
    yy[0] := rtmp;
    forall k | 0 <= k < n ensures yy[k] == ToFront(l, j)[k] { ToFrontEntries(l, j, k); }
  }

  /** The digit loop of the source, which works on z - 1, produces the digits of z. */
  lemma DigitLoop(y: nat)
    ensures y >= 2 ==> RunDigits(y + 1) == [if y % 2 == 1 then RUNB else RUNA] + RunDigits((y - 2) / 2 + 1)
    ensures y < 2 ==> RunDigits(y + 1) == [if y % 2 == 1 then RUNB else RUNA]
  {
    hide RunDigits;
    var z := y + 1;
    FirstDigit(z);
    if y >= 2 { assert (z - 1) / 2 == (y - 2) / 2 + 1; } else { assert (z - 1) / 2 == 0; NoDigits((z - 1) / 2); }
  }

  lemma WriteNext(m0: seq<nat>, start: nat, done: seq<nat>, sym: nat)
    requires start + |done| < |m0|
    ensures var m, wr := m0[..start] + done + m0[start + |done|..], start + |done|;
            m[wr := sym] == m0[..start] + (done + [sym]) + m0[wr + 1..]
  {
  }

  /** freq counts what base counted, and the symbols besides. */
  ghost predicate Counts(freq: seq<nat>, base: seq<nat>, syms: seq<nat>) {
    |freq| == |base| && forall c :: 0 <= c < |freq| ==> freq[c] == base[c] + multiset(syms)[c]
  }

  function Zeros(): (z: seq<nat>)
    ensures |z| == 258 && forall c :: 0 <= c < 258 ==> z[c] == 0
  {
    seq(258, _ => 0)
  }

  lemma CountNext(freq: seq<nat>, base: seq<nat>, syms: seq<nat>, sym: nat)
    requires Counts(freq, base, syms) && sym < |freq|
    ensures Counts(freq[sym := freq[sym] + 1], base, syms + [sym])
  {
  }

  lemma CountStart(freq: seq<nat>)
    ensures Counts(freq, freq, [])
  {
  }

  /** Writes the digits of z > 0 from cell start on, counting them. */
  method EmitRun(mem: array<nat>, start: nat, z: nat, freq: array<nat>) returns (wr: nat)
    requires z > 0 && start + z <= mem.Length && freq.Length == 258 && mem != freq
    modifies mem, freq
    ensures wr == start + |RunDigits(z)| <= start + z
    ensures mem[..] == old(mem[..start]) + RunDigits(z) + old(mem[wr..])
    ensures Counts(freq[..], old(freq[..]), RunDigits(z))
  {
    hide RunDigits, Counts;
    ghost var m0, f0 := mem[..], freq[..];
    var zPend: nat := z - 1;
    wr := start;
    ghost var done: seq<nat> := [];
    CountStart(f0);
    while true
      invariant RunDigits(z) == done + RunDigits(zPend + 1)
      invariant wr == start + |done| && |done| + zPend + 1 <= z
      invariant mem[..] == m0[..start] + done + m0[wr..]
      invariant Counts(freq[..], f0, done)
      decreases zPend
    {
      DigitLoop(zPend);
      var sym := if zPend % 2 == 1 then RUNB else RUNA;
      WriteNext(m0, start, done, sym);
      CountNext(freq[..], f0, done, sym);
      mem[wr] := sym;
      wr := wr + 1;
      freq[sym] := freq[sym] + 1;
      ghost var before := done;
      done := done + [sym];
      if zPend < 2 {
        assert RunDigits(z) == before + [sym];
        break;
      }
      assert done + RunDigits((zPend - 2) / 2 + 1) == before + ([sym] + RunDigits((zPend - 2) / 2 + 1));
      zPend := (zPend - 2) / 2;
    }
  }

  // ---- the whole stage ----

  /** Everything the encoder relies on while it works: the symbols so far fill the first cells
      of memory, the pointers from word i on are still there, and the list is in step. */
  ghost predicate Encoding(mem: seq<nat>, mem0: seq<nat>, yy: seq<byte>, freq: seq<nat>, n: nat, s: seq<byte>,
                           i: nat, wr: nat, zPend: nat)
    requires n <= 256 && i <= |s| && AllBelow(s, n)
  {
    var w := Encode(n, s, i);
    && |mem| == |mem0| == 2 * |s|
    && wr == |w.syms| && zPend == w.zPend
    && wr <= |mem| && mem[..wr] == w.syms
    && mem[2 * i..] == mem0[2 * i..]
    && yy == ListAfter(n, s, i)
    && |freq| == 258 && Counts(freq, Zeros(), w.syms)
  }

  /** Writing a run and a rank below cell 2 * (i + 1) spares every word from i + 1 on. */
  lemma AfterRank(mem: seq<nat>, mem1: seq<nat>, mem0: seq<nat>, yy: seq<byte>, freq: seq<nat>, freq1: seq<nat>,
                  n: nat, s: seq<byte>, i: nat, wr: nat, zPend: nat, wr1: nat, r: nat)
    requires n <= 256 && i < |s| && AllBelow(s, n) && Encoding(mem, mem0, yy, freq, n, s, i, wr, zPend)
    requires r == RankOf(n, s, i) > 0
    requires wr1 == wr + |RunDigits(zPend)| && |mem1| == |mem| && mem1 == mem[..wr] + RunDigits(zPend) + mem[wr1..]
    requires |freq1| == 258 && Counts(freq1, freq, RunDigits(zPend))
    ensures wr1 <= i
    ensures Encoding(mem1[wr1 := r + 1], mem0, ToFront(yy, r), freq1[r + 1 := freq1[r + 1] + 1], n, s, i + 1, wr1 + 1,
                     0)
  {
    hide RankOf, RunDigits, Counts, AllBelow, ListAfter;
    var w := Encode(n, s, i);
    var syms := w.syms + RunDigits(zPend) + [r + 1];
    ListNext(n, s, i);
    EncodeNext(n, s, i);
    CellsWritten(mem, mem1, mem0, i, wr, wr1, w.syms, RunDigits(zPend), r + 1);
    CountsChain(freq1, freq, w.syms, RunDigits(zPend));
    CountNext(freq1, Zeros(), w.syms + RunDigits(zPend), r + 1);
  }

  lemma ListNext(n: nat, s: seq<byte>, i: nat)
    requires n <= 256 && i < |s| && AllBelow(s, n)
    ensures ListAfter(n, s, i + 1) == ToFront(ListAfter(n, s, i), RankOf(n, s, i))
  {
  }

  lemma EncodeNext(n: nat, s: seq<byte>, i: nat)
    requires n <= 256 && i < |s| && AllBelow(s, n) && RankOf(n, s, i) > 0
    ensures var w := Encode(n, s, i);
            Encode(n, s, i + 1) == Written(w.syms + RunDigits(w.zPend) + [RankOf(n, s, i) + 1], 0)
  {
    hide RankOf, RunDigits;
  }

  lemma CellsWritten(mem: seq<nat>, mem1: seq<nat>, mem0: seq<nat>, i: nat, wr: nat, wr1: nat,
                     done: seq<nat>, run: seq<nat>, sym: nat)
    requires wr == |done| && wr1 == wr + |run| <= i && 2 * (i + 1) <= |mem| == |mem0| == |mem1|
    requires mem[..wr] == done && mem[2 * i..] == mem0[2 * i..]
    requires mem1 == mem[..wr] + run + mem[wr1..]
    ensures mem1[wr1 := sym][..wr1 + 1] == done + run + [sym]
    ensures mem1[wr1 := sym][2 * (i + 1)..] == mem0[2 * (i + 1)..]
  {
    var m := mem1[wr1 := sym];
    forall k | 2 * (i + 1) <= k < |mem| ensures m[k] == mem0[k] {
      assert mem[2 * i..][k - 2 * i] == mem0[2 * i..][k - 2 * i];
    }
  }

  lemma CountsChain(freq1: seq<nat>, freq: seq<nat>, a: seq<nat>, b: seq<nat>)
    requires |freq| == 258 && Counts(freq, Zeros(), a) && Counts(freq1, freq, b)
    ensures Counts(freq1, Zeros(), a + b)
  {
  }

  lemma AfterZero(mem: seq<nat>, mem0: seq<nat>, yy: seq<byte>, freq: seq<nat>, n: nat, s: seq<byte>,
                  i: nat, wr: nat, zPend: nat)
    requires n <= 256 && i < |s| && AllBelow(s, n) && Encoding(mem, mem0, yy, freq, n, s, i, wr, zPend)
    requires RankOf(n, s, i) == 0
    ensures Encoding(mem, mem0, yy, freq, n, s, i + 1, wr, zPend + 1)
  {
    hide RunDigits, Counts;
    ToFrontZero(yy);
    assert mem[2 * (i + 1)..] == mem[2 * i..][2..];
    assert mem0[2 * (i + 1)..] == mem0[2 * i..][2..];
  }

  /** The symbols written and counted. */
  ghost predicate Finished(mem: seq<nat>, freq: seq<nat>, n: nat, s: seq<byte>, nMTF: nat)
    requires n <= 256 && AllBelow(s, n)
  {
    && nMTF == |Symbols(n, s)| <= |mem| && mem[..nMTF] == Symbols(n, s)
    && |freq| == 258 && forall c :: 0 <= c < 258 ==> freq[c] == multiset(Symbols(n, s))[c]
  }

  lemma EncodingStart(mem: seq<nat>, freq: seq<nat>, n: nat, s: seq<byte>, yy: seq<byte>)
    requires n <= 256 && AllBelow(s, n) && |mem| == 2 * |s| && freq == Zeros() && yy == Initial(n)
    ensures Encoding(mem, mem, yy, freq, n, s, 0, 0, 0)
  {
  }

  lemma EncodingEnd(mem: seq<nat>, mem1: seq<nat>, mem0: seq<nat>, yy: seq<byte>, freq: seq<nat>, freq1: seq<nat>,
                    n: nat, s: seq<byte>, wr: nat, zPend: nat, wr1: nat)
    requires 0 < n <= 256 && AllBelow(s, n) && |s| > 0
    requires Encoding(mem, mem0, yy, freq, n, s, |s|, wr, zPend)
    requires wr1 == wr + |RunDigits(zPend)| && |mem1| == |mem| && mem1 == mem[..wr] + RunDigits(zPend) + mem[wr1..]
    requires |freq1| == 258 && Counts(freq1, freq, RunDigits(zPend))
    ensures wr1 < |mem1| && n + 1 < |freq1|
    ensures Finished(mem1[wr1 := n + 1], freq1[n + 1 := freq1[n + 1] + 1], n, s, wr1 + 1)
  {
    hide RunDigits, Counts, Encode, AllBelow, ListAfter;
    var w := Encode(n, s, |s|);
    assert mem1[..wr1] == w.syms + RunDigits(zPend);
    assert mem1[wr1 := n + 1][..wr1 + 1] == Symbols(n, s);
    CountsChain(freq1, freq, w.syms, RunDigits(zPend));
    CountNext(freq1, Zeros(), w.syms + RunDigits(zPend), n + 1);
    CountsFromZero(freq1[n + 1 := freq1[n + 1] + 1], Symbols(n, s));
  }

  lemma CountsFromZero(freq: seq<nat>, syms: seq<nat>)
    requires Counts(freq, Zeros(), syms)
    ensures |freq| == 258 && forall c :: 0 <= c < 258 ==> freq[c] == multiset(syms)[c]
  {
  }

  /** A pointer not yet passed is read unharmed. */
  lemma PointerIntact(mem: seq<nat>, mem0: seq<nat>, yy: seq<byte>, freq: seq<nat>, n: nat, s: seq<byte>,
                      i: nat, wr: nat, zPend: nat)
    requires n <= 256 && i < |s| && AllBelow(s, n) && Encoding(mem, mem0, yy, freq, n, s, i, wr, zPend)
    ensures |mem| == |mem0| == 2 * |s| && |freq| == 258 && wr + zPend <= i
    ensures Word(mem, i) == Word(mem0, i)
    ensures |yy| == n && s[i] in yy && RankOf(n, s, i) == IndexOf(yy, s[i])
  {
    hide Encode, Counts, ListAfter;
    assert mem[2 * i..][0] == mem0[2 * i..][0] && mem[2 * i..][1] == mem0[2 * i..][1];
  }

  lemma ColumnBelow(block: seq<byte>, ptr: seq<nat>, inUse: seq<bool>, map1: seq<byte>)
    requires IsPerm(ptr, |block|) && |map1| == 256 == |inUse|
    requires forall i :: 0 <= i < |block| ==> inUse[block[i]]
    requires forall x :: 0 <= x < 256 && inUse[x] ==> map1[x] == UsedBelow(inUse, x)
    ensures AllBelow(Column(block, ptr, map1), UsedBelow(inUse, 256))
    ensures |block| > 0 ==> UsedBelow(inUse, 256) > 0
  {
    forall i | 0 <= i < |block| ensures Column(block, ptr, map1)[i] < UsedBelow(inUse, 256) {
      UsedMonotone(inUse, block[Pred(|block|, ptr[i])], 256);
    }
    if |block| > 0 { UsedMonotone(inUse, block[0], 256); }
  }

  /** The sorted pointers as they lie in memory before anything is overwritten. */
  ghost predicate HoldsPointers(mem: seq<nat>, ptr: seq<nat>) {
    |mem| == 2 * |ptr| && forall i {:trigger ptr[i]} :: 0 <= i < |ptr| ==> Word(mem, i) == ptr[i]
  }

  /** Runs the stage over the memory that holds the sorted pointers.  The symbols replace the
      pointers cell by cell, never overtaking the reading. */
  method GenerateMtfValues(mem: array<nat>, block: array<byte>, inUse: seq<bool>, ghost ptr: seq<nat>)
    returns (nMTF: nat, nInUse: nat, mtfFreq: array<nat>, ghost s: seq<byte>)
    requires block.Length > 0 && mem as object != block && |inUse| == 256
    requires HoldsPointers(mem[..], ptr) && IsPerm(ptr, block.Length)
    requires forall i :: 0 <= i < block.Length ==> inUse[block[i]]
    modifies mem
    ensures nInUse == UsedBelow(inUse, 256) && 0 < nInUse <= 256
    ensures |s| == block.Length && forall i :: 0 <= i < |s| ==>
              var c := block[Pred(|s|, ptr[i])]; inUse[c] && s[i] == UsedBelow(inUse, c)
    ensures AllBelow(s, nInUse)
    ensures fresh(mtfFreq) && Finished(mem[..], mtfFreq[..], nInUse, s, nMTF)
  {
    hide Encoding, Finished, Counts, RunDigits, ListAfter, AllBelow, HoldsPointers;
    ghost var mem0, b := mem[..], block[..];
    var unseqToSeq;
    unseqToSeq, nInUse := MakeMapsE(inUse);
    s := Column(b, ptr, unseqToSeq[..]);
    ColumnBelow(b, ptr, inUse, unseqToSeq[..]);
    mtfFreq := new nat[258](_ => 0);
    assert mtfFreq[..] == Zeros();
    var yy := new byte[256];
    for i := 0 to nInUse
      modifies yy
      invariant forall k :: 0 <= k < i ==> yy[k] == k
    {
      yy[i] := i;
    }
    assert yy[..nInUse] == Initial(nInUse);
    var wr, zPend := 0, 0;
    PointerCount(mem0, ptr);
    EncodingStart(mem0, mtfFreq[..], nInUse, s, yy[..nInUse]);
    assert mem[..] == mem0;
    for i := 0 to block.Length
      modifies mem, yy, mtfFreq
      invariant Encoding(mem[..], mem0, yy[..nInUse], mtfFreq[..], nInUse, s, i, wr, zPend)
    {
      wr, zPend := EncodeOne(mem, block, yy, mtfFreq, unseqToSeq, nInUse, i, wr, zPend, mem0, ptr, s);
    }
    nMTF := FinishBlock(mem, mtfFreq, nInUse, wr, zPend, mem0, yy[..nInUse], s);
  }

  lemma PointerCount(mem: seq<nat>, ptr: seq<nat>)
    requires HoldsPointers(mem, ptr)
    ensures |mem| == 2 * |ptr|
  {
  }

  lemma PointerHeld(mem: seq<nat>, ptr: seq<nat>, i: nat)
    requires HoldsPointers(mem, ptr) && i < |ptr|
    ensures 2 * i + 1 < |mem| && Word(mem, i) == ptr[i]
  {
  }

  /** One byte of the column: either one more zero held back, or the zeros and a rank. */
  method EncodeOne(mem: array<nat>, block: array<byte>, yy: array<byte>, freq: array<nat>, unseqToSeq: array<byte>,
                   n: nat, i: nat, wr0: nat, zPend0: nat, ghost mem0: seq<nat>, ghost ptr: seq<nat>, ghost s: seq<byte>)
    returns (wr: nat, zPend: nat)
    requires n <= 256 == yy.Length == unseqToSeq.Length && i < block.Length == |s| && AllBelow(s, n)
    requires IsPerm(ptr, block.Length) && s == Column(block[..], ptr, unseqToSeq[..])
    requires HoldsPointers(mem0, ptr)
    requires mem != freq && yy != block && yy != unseqToSeq && mem as object != yy && freq as object != yy
    requires Encoding(mem[..], mem0, yy[..n], freq[..], n, s, i, wr0, zPend0)
    modifies mem, yy, freq
    ensures Encoding(mem[..], mem0, yy[..n], freq[..], n, s, i + 1, wr, zPend)
  {
    hide Encoding, Counts, RunDigits, ListAfter, AllBelow, HoldsPointers, RankOf;
    ghost var m, l, f := mem[..], yy[..n], freq[..];
    PointerIntact(m, mem0, l, f, n, s, i, wr0, zPend0);
    PointerHeld(mem0, ptr, i);
    wr, zPend := wr0, zPend0;
    var p := mem[2 * i] + 0x1_0000 * mem[2 * i + 1];
    var j := if p >= 1 then p - 1 else p - 1 + block.Length;
    var ll := unseqToSeq[block[j]];
    assert ll == s[i];
    if yy[0] == ll {
      AfterZero(m, mem0, l, f, n, s, i, wr, zPend);
      zPend := zPend + 1;
    } else {
      wr := EncodeRank(mem, yy, freq, n, i, ll, wr, zPend, mem0, s);
      zPend := 0;
    }
  }

  /** The zeros held back, then the rank of a byte that is not in front. */
  method EncodeRank(mem: array<nat>, yy: array<byte>, freq: array<nat>, n: nat, i: nat, ll: byte, wr0: nat, zPend: nat,
                    ghost mem0: seq<nat>, ghost s: seq<byte>)
    returns (wr: nat)
    requires n <= 256 == yy.Length && i < |s| && AllBelow(s, n) && ll == s[i] && yy[0] != ll
    requires mem != freq && mem as object != yy && freq as object != yy
    requires Encoding(mem[..], mem0, yy[..n], freq[..], n, s, i, wr0, zPend)
    modifies mem, yy, freq
    ensures Encoding(mem[..], mem0, yy[..n], freq[..], n, s, i + 1, wr, 0)
  {
    hide Encoding, Counts, RunDigits, ListAfter, AllBelow, RankOf;
    ghost var m, l, f := mem[..], yy[..n], freq[..];
    PointerIntact(m, mem0, l, f, n, s, i, wr0, zPend);
    wr := wr0;
    if zPend > 0 {
      wr := EmitRun(mem, wr, zPend, freq);
    } else {
      NoRun(m, f, wr);
    }
    ghost var m1, f1 := mem[..], freq[..];
    var r := MoveFront(yy, n, ll);
    AfterRank(m, m1, mem0, l, f, f1, n, s, i, wr0, zPend, wr, r);
    mem[wr] := r + 1;
    wr := wr + 1;
    freq[r + 1] := freq[r + 1] + 1;
  }

  lemma NoRun(mem: seq<nat>, freq: seq<nat>, wr: nat)
    requires wr <= |mem|
    ensures |RunDigits(0)| == 0 && mem == mem[..wr] + RunDigits(0) + mem[wr..]
    ensures Counts(freq, freq, RunDigits(0))
  {
  }

  /** The zeros still held back, and the end mark. */
  method FinishBlock(mem: array<nat>, freq: array<nat>, n: nat, wr0: nat, zPend: nat, ghost mem0: seq<nat>,
                     ghost yy: seq<byte>, ghost s: seq<byte>)
    returns (wr: nat)
    requires 0 < n <= 256 && |s| > 0 && AllBelow(s, n) && mem != freq && freq.Length == 258
    requires Encoding(mem[..], mem0, yy, freq[..], n, s, |s|, wr0, zPend)
    modifies mem, freq
    ensures Finished(mem[..], freq[..], n, s, wr)
  {
    hide Encoding, Finished, Counts, RunDigits, AllBelow;
    ghost var m, f := mem[..], freq[..];
    RoomAtEnd(m, mem0, yy, f, n, s, wr0, zPend);
    wr := wr0;
    if zPend > 0 {
      wr := EmitRun(mem, wr, zPend, freq);
    } else {
      NoRun(m, f, wr);
    }
    EncodingEnd(m, mem[..], mem0, yy, f, freq[..], n, s, wr0, zPend, wr);
    mem[wr] := n + 1;
    freq[n + 1] := freq[n + 1] + 1;
    wr := wr + 1;
  }

  lemma RoomAtEnd(mem: seq<nat>, mem0: seq<nat>, yy: seq<byte>, freq: seq<nat>, n: nat, s: seq<byte>, wr: nat,
                  zPend: nat)
    requires n <= 256 && AllBelow(s, n) && Encoding(mem, mem0, yy, freq, n, s, |s|, wr, zPend)
    ensures wr + zPend <= |s| <= |mem| && |freq| == 258
  {
  }
}
