/** The sending half of the block format: mapping table, selectors, code lengths and codes go
    out through the bit writer. */
module BlockWriter {
  import opened Powers
  import opened Rotations
  import opened MoveToFront
  import opened Bits
  import opened BitStream
  import opened HuffmanForest
  import opened CanonicalCodes
  import opened BlockFormat

  /** The table of bytes in use: first which sixteens occur, then which of each sixteen. */
  method SendMapping(w: BitWriter, inUse: seq<bool>)
    requires w.Valid() && |inUse| == 256
    modifies w`zbits, w`bsBuff, w`bsLive, w`top
    ensures w.Valid() && w.Written() == old(w.Written()) + MappingBits(inUse)
  {
    hide Any, BitsOf, BytesBits, TopHolds;
    ghost var w0 := w.Written();
    var inUse16: seq<bool> := [];
    for i := 0 to 16
      modifies {}
      invariant |inUse16| == i && forall k :: 0 <= k < i ==> inUse16[k] == Any(inUse, 16 * k, 16)
    {
      var some := SomeUsed(inUse, 16 * i);
      inUse16 := inUse16 + [some];
    }
    SendFlags(w, inUse, inUse16);
    SendMembers(w, inUse, inUse16);
    Assoc(w0, FlagBits(inUse, 0), MemberBits(inUse, 0));
  }

  method SendFlags(w: BitWriter, inUse: seq<bool>, inUse16: seq<bool>)
    requires w.Valid() && |inUse| == 256 && |inUse16| == 16
    requires forall k :: 0 <= k < 16 ==> inUse16[k] == Any(inUse, 16 * k, 16)
    modifies w`zbits, w`bsBuff, w`bsLive, w`top
    ensures w.Valid() && w.Written() == old(w.Written()) + FlagBits(inUse, 0)
  {
    hide Any, BitsOf, BytesBits, TopHolds;
    for i := 0 to 16
      invariant w.Valid() && w.Written() + FlagBits(inUse, i) == old(w.Written()) + FlagBits(inUse, 0)
    {
      Assoc(w.Written(), [inUse16[i]], FlagBits(inUse, i + 1));
      if inUse16[i] { PutBit(w, true); } else { PutBit(w, false); }
    }
  }

  /** What sixteen byte values contribute: their flags, if one of them is in use. */
  ghost function MemberPart(inUse: seq<bool>, i: nat): seq<bool>
    requires |inUse| == 256 && i < 16
  {
    if Any(inUse, 16 * i, 16) then inUse[16 * i..16 * i + 16] else []
  }

  method SendMembers(w: BitWriter, inUse: seq<bool>, inUse16: seq<bool>)
    requires w.Valid() && |inUse| == 256 && |inUse16| == 16
    requires forall k :: 0 <= k < 16 ==> inUse16[k] == Any(inUse, 16 * k, 16)
    modifies w`zbits, w`bsBuff, w`bsLive, w`top
    ensures w.Valid() && w.Written() == old(w.Written()) + MemberBits(inUse, 0)
  {
    hide *;
    MembersEnd(inUse);
    for i := 0 to 16
      invariant w.Valid() && w.Written() + MemberBits(inUse, i) == old(w.Written()) + MemberBits(inUse, 0)
    {
      MembersStep(inUse, i);
      Assoc(w.Written(), MemberPart(inUse, i), MemberBits(inUse, i + 1));
      SendPart(w, inUse, i, inUse16[i]);
    }
  }

  method SendPart(w: BitWriter, inUse: seq<bool>, i: nat, some: bool)
    requires w.Valid() && |inUse| == 256 && i < 16 && some == Any(inUse, 16 * i, 16)
    modifies w`zbits, w`bsBuff, w`bsLive, w`top
    ensures w.Valid() && w.Written() == old(w.Written()) + MemberPart(inUse, i)
  {
    hide Any, BitsOf, BytesBits, TopHolds;
    if some {
      SendSixteen(w, inUse, 16 * i);
    }
  }

  lemma MembersEnd(inUse: seq<bool>)
    requires |inUse| == 256
    ensures MemberBits(inUse, 16) == []
  {
  }

  lemma MembersStep(inUse: seq<bool>, i: nat)
    requires |inUse| == 256 && i < 16
    ensures MemberBits(inUse, i) == MemberPart(inUse, i) + MemberBits(inUse, i + 1)
  {
    hide Any;
  }

  method SomeUsed(inUse: seq<bool>, start: nat) returns (some: bool)
    requires start + 16 <= |inUse|
    ensures some == Any(inUse, start, 16)
  {
    some := false;
    for j := 0 to 16
      invariant some == Any(inUse, start, j)
    {
      if inUse[start + j] { some := true; }
    }
  }

  method SendSixteen(w: BitWriter, inUse: seq<bool>, start: nat)
    requires w.Valid() && start + 16 <= |inUse|
    modifies w`zbits, w`bsBuff, w`bsLive, w`top
    ensures w.Valid() && w.Written() == old(w.Written()) + inUse[start..start + 16]
  {
    hide BitsOf, BytesBits, TopHolds;
    for j := 0 to 16
      invariant w.Valid() && w.Written() == old(w.Written()) + inUse[start..start + j]
    {
      assert inUse[start..start + j + 1] == inUse[start..start + j] + [inUse[start + j]];
      if inUse[start + j] { PutBit(w, true); } else { PutBit(w, false); }
    }
  }

  /** Ranks of the selectors: each is looked for from the front of pos, where it is then put,
      the entries passed moving down by one. */
  method ComputeSelectorMtf(selector: seq<byte>, nGroups: nat) returns (selectorMtf: array<nat>)
    requires 0 < nGroups <= 256 && AllBelow(selector, nGroups) && |selector| <= MAX_SELECTORS
    ensures fresh(selectorMtf) && selectorMtf.Length == MAX_SELECTORS
    ensures selectorMtf[..|selector|] == SelectorRanks(nGroups, selector)
  {
    hide ListAfter, AllBelow, IndexOf;
    selectorMtf := new nat[MAX_SELECTORS];
    var pos := new byte[nGroups];
    for i := 0 to nGroups
      modifies pos
      invariant forall k :: 0 <= k < i ==> i <= 256 && pos[k] == k
    {
      pos[i] := i;
    }
    PosStart(pos[..], nGroups, selector);
    for i := 0 to |selector|
      modifies selectorMtf, pos
      invariant pos[..] == ListAfter(nGroups, selector, i)
      invariant forall k :: 0 <= k < i ==> selectorMtf[k] == RankOf(nGroups, selector, k)
    {
      PosHas(nGroups, selector, i);
      selectorMtf[i] := PullFront(pos, selector[i]);
      ListStep(nGroups, selector, i);
    }
  }

  lemma PosStart(pos: seq<byte>, g: nat, sel: seq<byte>)
    requires g <= 256 && |pos| == g && AllBelow(sel, g) && forall k :: 0 <= k < g ==> pos[k] == k
    ensures pos == ListAfter(g, sel, 0)
  {
  }

  lemma PosHas(g: nat, sel: seq<byte>, i: nat)
    requires g <= 256 && i < |sel| && AllBelow(sel, g)
    ensures sel[i] in ListAfter(g, sel, i) && |ListAfter(g, sel, i)| == g
    ensures RankOf(g, sel, i) == IndexOf(ListAfter(g, sel, i), sel[i])
  {
  }

  lemma ListStep(g: nat, sel: seq<byte>, i: nat)
    requires g <= 256 && i < |sel| && AllBelow(sel, g)
    ensures ListAfter(g, sel, i + 1) == ToFront(ListAfter(g, sel, i), RankOf(g, sel, i))
  {
  }

  /** One selector, searched and moved to the front at the same time. */
  method PullFront(pos: array<byte>, c: byte) returns (j: nat)
    requires c in pos[..]
    modifies pos
    ensures j == IndexOf(old(pos[..]), c) && pos[..] == ToFront(old(pos[..]), j)
  {
    ghost var l := pos[..];
    ghost var at := IndexOf(l, c);
    j := 0;
    var tmp := pos[j];
    while c != tmp
      invariant 0 <= j <= at < |l| && tmp == l[j]
      invariant forall k {:trigger pos[k]} :: 1 <= k <= j ==> pos[k] == l[k - 1]
      invariant forall k {:trigger pos[k]} :: j < k < |l| ==> pos[k] == l[k]
      decreases at - j
    {
      j := j + 1;
      var tmp2 := tmp;
      tmp := pos[j];
      pos[j] := tmp2;
    }
    pos[0] := tmp;
    forall k | 0 <= k < |l| ensures pos[k] == ToFront(l, j)[k] { ToFrontEntries(l, j, k); }
  }

  method SendSelectors(w: BitWriter, selectorMtf: seq<nat>)
    requires w.Valid()
    modifies w`zbits, w`bsBuff, w`bsLive, w`top
    ensures w.Valid() && w.Written() == old(w.Written()) + SelectorBits(selectorMtf, 0)
  {
    hide BitsOf, BytesBits, TopHolds;
    ghost var goal := w.Written() + SelectorBits(selectorMtf, 0);
    for i := 0 to |selectorMtf|
      invariant w.Valid() && w.Written() + SelectorBits(selectorMtf, i) == goal
    {
      Assoc(w.Written(), Unary(selectorMtf[i]), SelectorBits(selectorMtf, i + 1));
      SendUnary(w, selectorMtf[i]);
    }
    assert SelectorBits(selectorMtf, |selectorMtf|) == [];
  }

  method SendUnary(w: BitWriter, n: nat)
    requires w.Valid()
    modifies w`zbits, w`bsBuff, w`bsLive, w`top
    ensures w.Valid() && w.Written() == old(w.Written()) + Unary(n)
  {
    hide BitsOf, BytesBits, TopHolds;
    for j := 0 to n
      invariant w.Valid() && w.Written() + Unary(n - j) == old(w.Written()) + Unary(n)
    {
      Assoc(w.Written(), [true], Unary(n - j - 1));
      PutBit(w, true);
    }
    assert Unary(0) == [false];
    PutBit(w, false);
  }

  /** The lengths of one table, each as steps up or down from the one before. */
  method SendTable(w: BitWriter, len: seq<byte>)
    requires w.Valid() && len != [] && LengthsIn(len, 1, LONGEST_CODE)
    modifies w`zbits, w`bsBuff, w`bsLive, w`top
    ensures w.Valid() && w.Written() == old(w.Written()) + TableBits(len)
  {
    hide BitsOf, BytesBits, TopHolds, Pow2;
    ghost var w0 := w.Written();
    var curr: nat := len[0];
    FiveBits();
    w.W(5, curr);
    ghost var head := BitsOf(curr, 5);
    ghost var goal := w.Written() + Deltas(len, curr, 0);
    for i := 0 to |len|
      invariant w.Valid() && w.Written() + Deltas(len, curr, i) == goal
    {
      Assoc(w.Written(), Delta(curr, len[i]), Deltas(len, len[i], i + 1));
      SendDelta(w, curr, len[i]);
      curr := len[i];
    }
    Assoc(w0, head, Deltas(len, len[0], 0));
  }

  lemma FiveBits()
    ensures Pow2(5) == 32
  {
  }

  method SendDelta(w: BitWriter, curr0: nat, target: nat)
    requires w.Valid()
    modifies w`zbits, w`bsBuff, w`bsLive, w`top
    ensures w.Valid() && w.Written() == old(w.Written()) + Delta(curr0, target)
  {
    hide BitsOf, BytesBits, TopHolds;
    ghost var goal := w.Written() + Delta(curr0, target);
    var curr := curr0;
    while curr < target
      invariant w.Valid() && w.Written() + Delta(curr, target) == goal
    {
      Assoc(w.Written(), [true, false], Delta(curr + 1, target));
      TwoBits();
      w.W(2, 2);
      curr := curr + 1;
    }
    while curr > target
      invariant curr >= target
      invariant w.Valid() && w.Written() + Delta(curr, target) == goal
    {
      Assoc(w.Written(), [true, true], Delta(curr - 1, target));
      TwoBits();
      w.W(2, 3);
      curr := curr - 1;
    }
    assert Delta(curr, target) == [false];
    PutBit(w, false);
  }

  lemma TwoBits()
    ensures Pow2(2) == 4 && BitsOf(2, 2) == [true, false] && BitsOf(3, 2) == [true, true]
  {
    assert BitsOf(1, 1) == [true] by { OneBit(true); }
  }

  method SendTables(w: BitWriter, lens: seq<seq<byte>>)
    requires w.Valid() && forall t :: 0 <= t < |lens| ==> lens[t] != [] && LengthsIn(lens[t], 1, LONGEST_CODE)
    modifies w`zbits, w`bsBuff, w`bsLive, w`top
    ensures w.Valid() && w.Written() == old(w.Written()) + TablesBits(lens, 0)
  {
    hide BitsOf, BytesBits, TopHolds, TableBits, LengthsIn;
    ghost var goal := w.Written() + TablesBits(lens, 0);
    for t := 0 to |lens|
      invariant w.Valid() && w.Written() + TablesBits(lens, t) == goal
    {
      Assoc(w.Written(), TableBits(lens[t]), TablesBits(lens, t + 1));
      SendTable(w, lens[t]);
    }
    assert TablesBits(lens, |lens|) == [];
  }

  /** The codes of every table. */
  ghost predicate CodesOf(codes: seq<seq<nat>>, lens: seq<seq<byte>>) {
    |codes| == |lens| && forall t :: 0 <= t < |lens| ==> CodeTable(codes[t], lens[t])
  }

  ghost predicate CodeTable(code: seq<nat>, len: seq<byte>) {
    |code| == |len| && forall i :: 0 <= i < |len| ==> code[i] == Code(len, i)
  }

  method AllCodes(lens: seq<seq<byte>>) returns (codes: seq<seq<nat>>)
    requires forall t :: 0 <= t < |lens| ==> UsableLengths(lens[t])
    ensures CodesOf(codes, lens)
  {
    hide CodeTable, UsableLengths, Code;
    codes := [];
    for t := 0 to |lens|
      invariant |codes| == t && forall k :: 0 <= k < t ==> CodeTable(codes[k], lens[k])
    {
      var c := CodesFor(lens[t]);
      codes := codes + [c];
    }
  }

  method CodesFor(len: seq<byte>) returns (code: seq<nat>)
    requires UsableLengths(len)
    ensures CodeTable(code, len)
  {
    hide Code, KraftSum;
    var minLen, maxLen := Extremes(len);
    var a := new nat[|len|];
    AssignCodes(a, len, minLen, maxLen);
    code := a[..];
  }

  /** Least and greatest length of a table. */
  method Extremes(len: seq<byte>) returns (minLen: nat, maxLen: nat)
    requires len != [] && LengthsIn(len, 1, LONGEST_CODE)
    ensures 1 <= minLen <= maxLen <= LONGEST_CODE && LengthsIn(len, minLen, maxLen) && maxLen == Longest(len, |len|)
  {
    minLen := 32;
    maxLen := 0;
    for i := 0 to |len|
      invariant maxLen == Longest(len, i) <= LONGEST_CODE && 1 <= minLen <= 32
      invariant i > 0 ==> minLen <= maxLen
      invariant forall k :: 0 <= k < i ==> minLen <= len[k] <= maxLen
    {
      if len[i] > maxLen { maxLen := len[i]; }
      if len[i] < minLen { minLen := len[i]; }
    }
  }

  /** The symbols, fifty at a time with the table selected for them. */
  method SendCodes(w: BitWriter, mtfv: array<nat>, nMTF: nat, selector: seq<byte>, lens: seq<seq<byte>>,
                   codes: seq<seq<nat>>)
    requires w.Valid() && nMTF <= mtfv.Length && Codable(lens, selector, mtfv[..nMTF]) && CodesOf(codes, lens)
    requires |selector| == (nMTF + GROUP_SIZE - 1) / GROUP_SIZE
    requires forall t :: 0 <= t < |lens| ==> UsableLengths(lens[t])
    modifies w`zbits, w`bsBuff, w`bsLive, w`top
    ensures w.Valid() && w.Written() == old(w.Written()) + CodesBits(lens, selector, mtfv[..nMTF], 0)
  {
    hide CodesBits, Codable, CodesOf, UsableLengths, BitsOf, BytesBits, TopHolds, Pow2;
    ghost var syms := mtfv[..nMTF];
    ghost var goal := w.Written() + CodesBits(lens, selector, syms, 0);
    var selCtr, gs: nat := 0, 0;
    while gs < nMTF
      invariant gs == if selCtr == |selector| then nMTF else GROUP_SIZE * selCtr
      invariant 0 <= selCtr <= |selector| && gs <= nMTF
      invariant w.Valid() && w.Written() + CodesBits(lens, selector, syms, gs) == goal
    {
      var ge := gs + GROUP_SIZE - 1;
      if ge >= nMTF { ge := nMTF - 1; }
      for i := gs to ge + 1
        invariant w.Valid() && w.Written() + CodesBits(lens, selector, syms, i) == goal
      {
        SendOne(w, mtfv[i], i, selCtr, selector, lens, codes, syms);
      }
      gs := ge + 1;
      selCtr := selCtr + 1;
    }
    CodesEnd(lens, selector, syms);
    assert selCtr == |selector|;
  }

  lemma CodesEnd(lens: seq<seq<byte>>, sel: seq<byte>, syms: seq<nat>)
    requires Codable(lens, sel, syms)
    ensures CodesBits(lens, sel, syms, |syms|) == []
  {
  }

  /** Code number i goes out in the bits its length says. */
  method SendOne(w: BitWriter, sym: nat, i: nat, selCtr: nat, selector: seq<byte>, lens: seq<seq<byte>>,
                 codes: seq<seq<nat>>, ghost syms: seq<nat>)
    requires w.Valid() && Codable(lens, selector, syms) && CodesOf(codes, lens) && i < |syms| && sym == syms[i]
    requires selCtr < |selector| && GROUP_SIZE * selCtr <= i < GROUP_SIZE * (selCtr + 1)
    requires forall t :: 0 <= t < |lens| ==> UsableLengths(lens[t])
    modifies w`zbits, w`bsBuff, w`bsLive, w`top
    ensures w.Valid()
    ensures w.Written() + CodesBits(lens, selector, syms, i + 1) ==
              old(w.Written()) + CodesBits(lens, selector, syms, i)
  {
    hide BitsOf, BytesBits, TopHolds, Pow2, KraftSum, Code;
    assert i / GROUP_SIZE == selCtr;
    var t := selector[selCtr];
    ghost var len := LengthsOf(lens, selector, i);
    assert len == lens[t] && CodeTable(codes[t], lens[t]);
    assert UsableLengths(len);
    CodeFits(len, LONGEST_CODE, sym);
    Assoc(w.Written(), CodeWord(len, sym), CodesBits(lens, selector, syms, i + 1));
    w.W(lens[t][sym], codes[t][sym]);
  }

  /** Sends a whole block after its header. */
  method SendPlan(w: BitWriter, inUse: seq<bool>, mtfv: array<nat>, nMTF: nat, selector: seq<byte>,
                  lens: seq<seq<byte>>)
    requires w.Valid() && nMTF <= mtfv.Length && Sendable(Plan(inUse, selector, lens, mtfv[..nMTF]))
    requires |selector| == (nMTF + GROUP_SIZE - 1) / GROUP_SIZE
    modifies w`zbits, w`bsBuff, w`bsLive, w`top
    ensures w.Valid() && w.Written() == old(w.Written()) + PlanBits(Plan(inUse, selector, lens, mtfv[..nMTF]))
  {
    hide BitsOf, BytesBits, TopHolds, MappingBits, SelectorBits, SelectorRanks, TablesBits, CodesBits, UsableLengths,
         Codable, Pow2;
    ghost var w0, syms := w.Written(), mtfv[..nMTF];
    var selectorMtf := ComputeSelectorMtf(selector, |lens|);
    var codes := AllCodes(lens);
    SendMapping(w, inUse);
    ThreeBits();
    w.W(3, |lens|);
    w.W(15, |selector|);
    ghost var w1 := w.Written();
    SendSelectors(w, selectorMtf[..|selector|]);
    ghost var w2 := w.Written();
    assert forall t :: 0 <= t < |lens| ==> lens[t] != [] && LengthsIn(lens[t], 1, LONGEST_CODE) by {
      UsableMeans(lens);
    }
    SendTables(w, lens);
    ghost var w3 := w.Written();
    SendCodes(w, mtfv, nMTF, selector, lens, codes);
    JoinParts(w0, MappingBits(inUse), BitsOf(|lens|, 3), BitsOf(|selector|, 15),
              SelectorBits(selectorMtf[..|selector|], 0), TablesBits(lens, 0), CodesBits(lens, selector, syms, 0));
  }

  lemma JoinParts(w: seq<bool>, a: seq<bool>, b: seq<bool>, c: seq<bool>, d: seq<bool>, e: seq<bool>, f: seq<bool>)
    ensures (((((w + a) + b) + c) + d) + e) + f == w + (a + (b + (c + (d + (e + f)))))
  {
  }

  lemma ThreeBits()
    ensures Pow2(3) == 8
  {
  }

  lemma UsableMeans(lens: seq<seq<byte>>)
    requires forall t :: 0 <= t < |lens| ==> UsableLengths(lens[t])
    ensures forall t :: 0 <= t < |lens| ==> lens[t] != [] && LengthsIn(lens[t], 1, LONGEST_CODE)
  {
  }
}
