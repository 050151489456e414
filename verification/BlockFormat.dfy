/** The bits of a compressed block after its header: the table of bytes in use, the selectors,
    the code lengths and the coded symbols.  Every part is described by what remains to be
    sent, so that the writer and the reader are proved against the same definitions. */
module BlockFormat {
  import opened Powers
  import opened Rotations
  import opened MoveToFront
  import opened Bits
  import opened BitStream
  import opened HuffmanForest
  import opened CanonicalCodes

  const GROUP_SIZE := 50

  /** Cells of the arrays that hold the selectors, on either side: 2 + 900000 / GROUP_SIZE. */
  const MAX_SELECTORS: nat := 18002

  // ---- bytes in use ----

  function Any(inUse: seq<bool>, start: nat, n: nat): bool
    requires start + n <= |inUse|
  {
    n > 0 && (inUse[start + n - 1] || Any(inUse, start, n - 1))
  }

  lemma {:induction false} NoneUsed(inUse: seq<bool>, start: nat, n: nat, k: nat)
    requires start + n <= |inUse| && k < n && inUse[start + k]
    ensures Any(inUse, start, n)
  {
    if k < n - 1 { NoneUsed(inUse, start, n - 1, k); }
  }

  /** One bit for each sixteen byte values from the i-th sixteen on. */
  function FlagBits(inUse: seq<bool>, i: nat): (b: seq<bool>)
    requires |inUse| == 256 && i <= 16
    decreases 16 - i
  {
    if i == 16 then [] else [Any(inUse, 16 * i, 16)] + FlagBits(inUse, i + 1)
  }

  /** Sixteen bits for each sixteen byte values of which one is in use. */
  function MemberBits(inUse: seq<bool>, i: nat): (b: seq<bool>)
    requires |inUse| == 256 && i <= 16
    decreases 16 - i
  {
    if i == 16 then []
    else (if Any(inUse, 16 * i, 16) then inUse[16 * i..16 * i + 16] else []) + MemberBits(inUse, i + 1)
  }

  // ---- selectors ----

  function Unary(j: nat): (b: seq<bool>) {
    if j == 0 then [false] else [true] + Unary(j - 1)
  }

  function SelectorBits(mtf: seq<nat>, i: nat): seq<bool>
    requires i <= |mtf|
    decreases |mtf| - i
  {
    if i == |mtf| then [] else Unary(mtf[i]) + SelectorBits(mtf, i + 1)
  }

  /** The selectors as move-to-front ranks over the numbers of the coding tables. */
  function SelectorRanks(g: nat, sel: seq<byte>): (m: seq<nat>)
    requires g <= 256 && AllBelow(sel, g)
    ensures |m| == |sel| && forall i :: 0 <= i < |sel| ==> m[i] == RankOf(g, sel, i)
  {
    seq(|sel|, i requires 0 <= i < |sel| => RankOf(g, sel, i))
  }

  // ---- code lengths ----

  function Delta(curr: nat, target: nat): (b: seq<bool>)
    decreases if curr < target then target - curr else curr - target
  {
    if curr < target then [true, false] + Delta(curr + 1, target)
    else if curr > target then [true, true] + Delta(curr - 1, target)
    else [false]
  }

  function Deltas(len: seq<byte>, curr: nat, i: nat): seq<bool>
    requires i <= |len|
    decreases |len| - i
  {
    if i == |len| then [] else Delta(curr, len[i]) + Deltas(len, len[i], i + 1)
  }

  function TableBits(len: seq<byte>): seq<bool>
    requires len != []
  {
    BitsOf(len[0], 5) + Deltas(len, len[0], 0)
  }

  function TablesBits(lens: seq<seq<byte>>, t: nat): seq<bool>
    requires t <= |lens| && forall k :: 0 <= k < |lens| ==> lens[k] != []
    decreases |lens| - t
  {
    if t == |lens| then [] else TableBits(lens[t]) + TablesBits(lens, t + 1)
  }

  // ---- coded symbols ----

  /** Every symbol has a table to be coded with, and is in it. */
  ghost predicate Codable(lens: seq<seq<byte>>, sel: seq<byte>, syms: seq<nat>) {
    && |syms| <= GROUP_SIZE * |sel|
    && (forall i :: 0 <= i < |sel| ==> sel[i] < |lens|)
    && forall t, k :: 0 <= t < |lens| && 0 <= k < |syms| ==> syms[k] < |lens[t]|
  }

  function LengthsOf(lens: seq<seq<byte>>, sel: seq<byte>, k: nat): seq<byte>
    requires k < GROUP_SIZE * |sel| && forall i :: 0 <= i < |sel| ==> sel[i] < |lens|
  {
    lens[sel[k / GROUP_SIZE]]
  }

  ghost function CodesBits(lens: seq<seq<byte>>, sel: seq<byte>, syms: seq<nat>, k: nat): seq<bool>
    requires k <= |syms| && Codable(lens, sel, syms)
    decreases |syms| - k
  {
    if k == |syms| then [] else CodeWord(LengthsOf(lens, sel, k), syms[k]) + CodesBits(lens, sel, syms, k + 1)
  }

  /** Code lengths fit to be sent and decoded. */
  ghost predicate UsableLengths(len: seq<byte>) {
    && 0 < |len| <= MAX_ALPHABET && LengthsIn(len, 1, LONGEST_CODE)
    && KraftSum(len, LONGEST_CODE, |len|) <= Pow2(LONGEST_CODE)
  }

  /** Everything sent for a block after its header. */
  datatype Plan = Plan(inUse: seq<bool>, sel: seq<byte>, lens: seq<seq<byte>>, syms: seq<nat>)

  ghost predicate Sendable(p: Plan) {
    && |p.inUse| == 256
    && 2 <= |p.lens| <= 6 && 0 < |p.sel| < Pow2(15) && |p.sel| <= MAX_SELECTORS && AllBelow(p.sel, |p.lens|)
    && (forall t :: 0 <= t < |p.lens| ==> UsableLengths(p.lens[t]))
    && Codable(p.lens, p.sel, p.syms)
  }

  ghost function MappingBits(inUse: seq<bool>): seq<bool>
    requires |inUse| == 256
  {
    FlagBits(inUse, 0) + MemberBits(inUse, 0)
  }

  ghost function PlanBits(p: Plan): seq<bool>
    requires Sendable(p)
  {
    MappingBits(p.inUse) + (BitsOf(|p.lens|, 3) + (BitsOf(|p.sel|, 15)
    + (SelectorBits(SelectorRanks(|p.lens|, p.sel), 0)
       + (TablesBits(p.lens, 0) + CodesBits(p.lens, p.sel, p.syms, 0)))))
  }

  // ---- single bits ----

  lemma OneBit(bit: bool)
    ensures Pow2(1) == 2 && BitsOf(if bit then 1 else 0, 1) == [bit]
  {
    assert BitsOf(0, 0) == [];
  }

  method PutBit(w: BitWriter, bit: bool)
    requires w.Valid()
    modifies w`zbits, w`bsBuff, w`bsLive, w`top
    ensures w.Valid() && w.Written() == old(w.Written()) + [bit]
  {
    OneBit(bit);
    w.W(1, if bit then 1 else 0);
  }

  method GetBit(r: BitReader) returns (ok: bool, bit: bool)
    requires r.Valid()
    modifies r
    ensures r.Valid() && (ok <==> old(r.Pending()) != [])
    ensures |r.Pending()| <= |old(r.Pending())|
    ensures ok ==> bit == old(r.Pending())[0] && r.Pending() == old(r.Pending())[1..]
  {
    hide BitsOf, BytesBits, LowHolds;
    var v;
    ok, v := r.GetBits(1);
    bit := v == 1;
    if ok {
      OneBit(bit);
      assert old(r.Pending()) == [bit] + r.Pending();
    }
  }

  /** Reads n bits; where a number sent in n bits is next, it is what comes out. */
  method GetNumber(r: BitReader, n: nat, ghost x: nat, ghost rest: seq<bool>) returns (ok: bool, v: nat)
    requires r.Valid() && n <= 24
    modifies r
    ensures r.Valid() && (ok ==> v < Pow2(n) && |old(r.Pending())| == n + |r.Pending()|)
    ensures |r.Pending()| <= |old(r.Pending())|
    ensures x < Pow2(n) && old(r.Pending()) == BitsOf(x, n) + rest ==> ok && v == x && r.Pending() == rest
    ensures Took(old(r.Pending()), n, ok, v, r.Pending())
    ensures ok ==> old(r.Pending()) == BitsOf(v, n) + r.Pending()
  {
    hide BitsOf, BytesBits, LowHolds, Pow2, Value;
    ghost var bits := r.Pending();
    ok, v := r.GetBits(n);
    if ok { TakenIs(bits, v, n, r.Pending()); }
    if x < Pow2(n) && bits == BitsOf(x, n) + rest {
      SameNumber(v, x, n, bits, r.Pending(), rest);
    }
  }

  /** The first n bits have been read as a number, if there are as many. */
  ghost predicate Took(bits: seq<bool>, n: nat, ok: bool, v: nat, left: seq<bool>) {
    (ok <==> n <= |bits|) && (ok ==> v == Value(bits[..n]) && left == bits[n..])
  }

  lemma TakenIs(bits: seq<bool>, v: nat, n: nat, left: seq<bool>)
    requires v < Pow2(n) && bits == BitsOf(v, n) + left
    ensures n <= |bits| && v == Value(bits[..n]) && left == bits[n..]
  {
    hide BitsOf, Pow2, Value;
    ValueOfBits(v, n);
    assert bits[..n] == BitsOf(v, n);
  }

  lemma SameNumber(v: nat, x: nat, n: nat, bits: seq<bool>, p: seq<bool>, rest: seq<bool>)
    requires v < Pow2(n) && x < Pow2(n) && bits == BitsOf(v, n) + p && bits == BitsOf(x, n) + rest
    ensures v == x && p == rest
  {
    hide BitsOf, Pow2;
    assert BitsOf(v, n) == bits[..n] == BitsOf(x, n);
    assert p == bits[n..] == rest;
    ValueOfBits(v, n);
    ValueOfBits(x, n);
  }

  // ---- codes apart ----

  /** Where a usable code's word is next, no other symbol matches. */
  lemma OnlyOneMatches(len: seq<byte>, s: nat, x: nat, rest: seq<bool>)
    requires UsableLengths(len) && s < |len| && x < |len|
    ensures Matches(len, x, CodeWord(len, x) + rest)
    ensures Matches(len, s, CodeWord(len, x) + rest) ==> s == x
  {
    hide Code, CodeWord, Pow2, KraftSum;
    CodeFits(len, LONGEST_CODE, x);
    var a, b := CodeWord(len, s), CodeWord(len, x);
    if Matches(len, s, b + rest) {
      if |a| <= |b| {
        assert a == (b + rest)[..|a|] == b[..|a|];
        PrefixFree(len, LONGEST_CODE, s, x);
      } else {
        assert a == (b + rest)[..|a|];
        assert b == a[..|b|];
        PrefixFree(len, LONGEST_CODE, x, s);
      }
    }
  }
}
