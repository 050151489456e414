/** Canonical prefix codes: the codes given to a list of lengths, the limit/base/perm tables
    that undo them, and the bit by bit search of the decoder. */
module CanonicalCodes {
  import opened Powers
  import opened Products
  import opened Rotations
  import opened Permutations
  import opened BurrowsWheeler
  import opened Bits
  import opened BitStream
  import opened HuffmanForest

  const MAX_CODE_LEN := 23
  const LONGEST_CODE := 20
  const MAX_ALPHABET := 258

  // ---- the codes ----

  /** The first code of length n: past all shorter codes, with a bit appended. */
  function First(len: seq<byte>, n: nat): nat {
    if n == 0 then 0 else 2 * (First(len, n - 1) + Occ(len, |len|, n - 1))
  }

  function Code(len: seq<byte>, i: nat): nat
    requires i < |len|
  {
    First(len, len[i]) + Occ(len, i, len[i])
  }

  function CodeWord(len: seq<byte>, i: nat): seq<bool>
    requires i < |len|
  {
    BitsOf(Code(len, i), len[i])
  }

  ghost predicate LengthsIn(len: seq<byte>, lo: nat, hi: nat) {
    forall i :: 0 <= i < |len| ==> lo <= len[i] <= hi
  }

  lemma {:induction false} NoneOutside(len: seq<byte>, lo: nat, hi: nat, n: int, k: nat)
    requires LengthsIn(len, lo, hi) && k <= |len|
    ensures n < lo || n > hi ==> Occ(len, k, n) == 0
    ensures n <= lo ==> Less(len, k, n) == 0
    ensures n > hi ==> Less(len, k, n) == k
  {
    if k > 0 { NoneOutside(len, lo, hi, n, k - 1); }
  }

  /** Codes start at zero whatever the shortest length is. */
  lemma {:induction false} FirstZero(len: seq<byte>, lo: nat, hi: nat, n: nat)
    requires LengthsIn(len, lo, hi) && n <= lo
    ensures First(len, n) == 0
  {
    if n > 0 {
      FirstZero(len, lo, hi, n - 1);
      NoneOutside(len, lo, hi, n - 1, |len|);
    }
  }

  lemma CodeBounds(len: seq<byte>, i: nat)
    requires i < |len|
    ensures First(len, len[i]) <= Code(len, i) < First(len, len[i]) + Occ(len, |len|, len[i])
  {
    OccMonotone(len, i, |len|, len[i]);
  }

  lemma DoubledProduct(x: nat, k: nat)
    requires k > 0
    ensures x * Pow2(k) == 2 * (x * Pow2(k - 1))
  {
    assert x * (2 * Pow2(k - 1)) == 2 * (x * Pow2(k - 1));
  }

  /** Longer codes start past every extension of the shorter ones. */
  lemma {:induction false} FirstGrows(len: seq<byte>, n: nat, m: nat)
    requires n < m
    ensures First(len, m) >= (First(len, n) + Occ(len, |len|, n)) * Pow2(m - n)
    decreases m
  {
    var x := First(len, n) + Occ(len, |len|, n);
    assert First(len, m) == 2 * (First(len, m - 1) + Occ(len, |len|, m - 1));
    hide First, Occ;
    if m == n + 1 {
      assert Pow2(1) == 2;
    } else {
      FirstGrows(len, n, m - 1);
      assert m - 1 - n == m - n - 1;
      DoubledProduct(x, m - n);
    }
  }

  // ---- the Kraft inequality ----

  /** The share of the code space taken by the symbols of length up to n. */
  ghost function Taken(len: seq<byte>, top: nat, n: nat, m: nat): nat
    requires m <= |len| && n <= top
  {
    if m == 0 then 0 else Taken(len, top, n, m - 1) + (if len[m - 1] <= n then Pow2(top - len[m - 1]) else 0)
  }

  lemma {:induction false} TakenNext(len: seq<byte>, top: nat, n: nat, m: nat)
    requires m <= |len| && n < top
    ensures Taken(len, top, n + 1, m) == Taken(len, top, n, m) + Occ(len, m, n + 1) * Pow2(top - (n + 1))
  {
    hide Pow2;
    if m > 0 {
      TakenNext(len, top, n, m - 1);
      OneMoreTimes(Occ(len, m - 1, n + 1), Pow2(top - (n + 1)));
    }
  }

  lemma {:induction false} TakenNone(len: seq<byte>, top: nat, n: nat, m: nat)
    requires m <= |len| && n == 0
    ensures Taken(len, top, n, m) == Occ(len, m, n) * Pow2(top)
  {
    hide Pow2;
    if m > 0 {
      TakenNone(len, top, n, m - 1);
      OneMoreTimes(Occ(len, m - 1, n), Pow2(top));
    }
  }

  lemma OneMoreTimes(k: nat, p: nat)
    ensures (k + 1) * p == k * p + p
  {
  }

  lemma DoublePower(k: nat)
    ensures Pow2(k + 1) == 2 * Pow2(k)
  {
  }

  lemma DoubledSum(x: nat, k: nat, p: nat)
    ensures (2 * x + k) * p == x * (2 * p) + k * p
  {
    assert x * (2 * p) == (2 * x) * p;
  }

  lemma FirstStart(len: seq<byte>)
    ensures First(len, 0) == 0
  {
  }

  lemma {:induction false} TakenIsNext(len: seq<byte>, top: nat, n: nat)
    requires n <= top
    ensures Taken(len, top, n, |len|) == (First(len, n) + Occ(len, |len|, n)) * Pow2(top - n)
  {
    hide *;
    if n == 0 {
      FirstStart(len);
      TakenNone(len, top, n, |len|);
    } else {
      FirstNext(len, n - 1);
      TakenIsNext(len, top, n - 1);
      TakenNext(len, top, n - 1, |len|);
      DoublePower(top - n);
      DoubledSum(First(len, n - 1) + Occ(len, |len|, n - 1), Occ(len, |len|, n), Pow2(top - n));
    }
  }

  lemma {:induction false} TakenWithin(len: seq<byte>, top: nat, n: nat, m: nat)
    requires m <= |len| && n <= top
    ensures Taken(len, top, n, m) <= KraftSum(len, top, m)
  {
    if m > 0 { TakenWithin(len, top, n, m - 1); }
  }

  /** Lengths that satisfy the Kraft inequality get codes that fit them. */
  lemma CodeFits(len: seq<byte>, top: nat, i: nat)
    requires i < |len| && LengthsIn(len, 1, top) && KraftSum(len, top, |len|) <= Pow2(top)
    ensures Code(len, i) < Pow2(len[i])
  {
    hide Pow2, Taken, KraftSum, First, Occ;
    var n := len[i];
    TakenIsNext(len, top, n);
    TakenWithin(len, top, n, |len|);
    CodeBounds(len, i);
    Pow2Add(n, top - n);
    FactorOut(First(len, n) + Occ(len, |len|, n), Pow2(n), Pow2(top - n));
  }

  lemma FactorOut(a: nat, b: nat, p: nat)
    requires p >= 1
    ensures a * p <= b * p ==> a <= b
  {
    MultipleFar(a - b, p);
    Distribute(a - b, b, p);
  }

  /** No code word begins another: where one ends, a longer one is already past it. */
  lemma PrefixFree(len: seq<byte>, top: nat, i: nat, j: nat)
    requires i < |len| && j < |len| && LengthsIn(len, 1, top) && KraftSum(len, top, |len|) <= Pow2(top)
    requires CodeWord(len, i) <= CodeWord(len, j)
    ensures i == j
  {
    hide First, Occ, BitsOf, Pow2, KraftSum;
    CodeFits(len, top, i);
    CodeFits(len, top, j);
    var d := len[j] - len[i];
    PrefixValue(Code(len, i), len[i], Code(len, j), len[j]);
    if d > 0 {
      FirstGrows(len, len[i], len[j]);
      CodeBounds(len, i);
      CodeBounds(len, j);
      TimesStep(Code(len, i), First(len, len[i]) + Occ(len, |len|, len[i]), Pow2(d));
    } else {
      assert Pow2(d) == 1 by { PowerOfZero(d); }
      SameLengthSameCode(len, i, j);
    }
  }

  lemma PowerOfZero(d: nat)
    ensures d == 0 ==> Pow2(d) == 1
  {
  }

  lemma SameLengthSameCode(len: seq<byte>, i: nat, j: nat)
    requires i < |len| && j < |len| && len[i] == len[j] && Code(len, i) == Code(len, j)
    ensures i == j
  {
    if i < j { OccMonotone(len, i, j, len[i]); } else { OccMonotone(len, j, i, len[i]); }
  }

  /** What follows a prefix, as a number. */
  lemma RestValue(x: seq<bool>, y: seq<bool>) returns (r: nat)
    requires x <= y
    ensures r < Pow2(|y| - |x|) && y == x + BitsOf(r, |y| - |x|)
  {
    hide *;
    var rest := y[|x|..];
    r := Value(rest);
    ValueBound(rest);
    BitsOfValue(rest);
    assert y == x + rest;
  }

  lemma ValueInParts(a: nat, m: nat, r: nat, k: nat)
    requires a < Pow2(m) && r < Pow2(k)
    ensures Value(BitsOf(a, m) + BitsOf(r, k)) == a * Pow2(k) + r
  {
    hide *;
    BitsOfSum(a, m, r, k);
    TimesUp(0, a, Pow2(k));
    var v: nat := a * Pow2(k) + r;
    assert v < Pow2(m + k) by {
      Pow2Add(m, k);
      TimesStep(a, Pow2(m), Pow2(k));
    }
    ValueOfBits(v, m + k);
  }

  /** The value of a prefix is the value of the whole without its low bits. */
  lemma PrefixValue(a: nat, m: nat, b: nat, n: nat)
    requires a < Pow2(m) && b < Pow2(n) && BitsOf(a, m) <= BitsOf(b, n)
    ensures m <= n && a * Pow2(n - m) <= b < a * Pow2(n - m) + Pow2(n - m)
  {
    hide *;
    var r := RestValue(BitsOf(a, m), BitsOf(b, n));
    ValueInParts(a, m, r, n - m);
    ValueOfBits(b, n);
  }

  /** Hands out the codes length by length. */
  method AssignCodes(code: array<nat>, length: seq<byte>, minLen: nat, maxLen: nat)
    requires |length| <= code.Length && minLen <= maxLen && LengthsIn(length, minLen, maxLen)
    modifies code
    ensures forall i :: 0 <= i < |length| ==> code[i] == Code(length, i)
  {
    hide First;
    var vec: nat := 0;
    FirstZero(length, minLen, maxLen, minLen);
    for n := minLen to maxLen + 1
      invariant vec == First(length, n)
      invariant forall k :: 0 <= k < |length| && length[k] < n ==> code[k] == Code(length, k)
    {
      for i := 0 to |length|
        invariant vec == First(length, n) + Occ(length, i, n)
        invariant forall k :: 0 <= k < |length| && (length[k] < n || (length[k] == n && k < i)) ==>
                    code[k] == Code(length, k)
      {
        if length[i] == n {
          code[i] := vec;
          vec := vec + 1;
        }
      }
      vec := 2 * vec;
      FirstNext(length, n);
    }
  }

  lemma FirstNext(len: seq<byte>, n: nat)
    ensures First(len, n + 1) == 2 * (First(len, n) + Occ(len, |len|, n))
  {
  }

  // ---- the decoding tables ----

  /** What the tables say about every code length. */
  ghost predicate Tables(len: seq<byte>, minLen: nat, maxLen: nat, limit: seq<int>, base: seq<int>, perm: seq<nat>) {
    && |limit| == MAX_CODE_LEN && |base| == MAX_CODE_LEN
    && (forall n: nat :: minLen <= n <= maxLen && n < MAX_CODE_LEN ==>
          limit[n] == First(len, n) + Occ(len, |len|, n) - 1)
    && (forall n: nat :: maxLen < n < MAX_CODE_LEN ==> limit[n] == 0)
    && (forall n: nat :: minLen <= n <= maxLen && n < MAX_CODE_LEN ==> base[n] == First(len, n) - Less(len, |len|, n))
    && IsStableSort(len, perm)
  }

  /** The symbols in order of length, equal lengths in order of symbol. */
  method SortByLength(perm: array<nat>, length: seq<byte>, minLen: nat, maxLen: nat)
    requires |length| <= perm.Length && minLen <= maxLen && LengthsIn(length, minLen, maxLen)
    modifies perm
    ensures IsStableSort(length, perm[..|length|])
  {
    hide Less, Occ;
    var pp: nat := 0;
    NoneOutside(length, minLen, maxLen, minLen, |length|);
    for i := minLen to maxLen + 1
      invariant pp == Less(length, |length|, i)
      invariant forall s :: 0 <= s < |length| && length[s] < i ==> perm[Rank(length, s)] == s
    {
      NoOcc(length, i);
      for j := 0 to |length|
        invariant pp == Less(length, |length|, i) + Occ(length, j, i)
        invariant forall s :: 0 <= s < |length| && Before(length, i, j, s) ==> perm[Rank(length, s)] == s
      {
        OccNext(length, j, i);
        if length[j] == i {
          assert pp == Rank(length, j);
          forall s | 0 <= s < |length| && Before(length, i, j, s) ensures Rank(length, s) < pp {
            RankOrder(length, s, j);
          }
          perm[pp] := j;
          pp := pp + 1;
        }
      }
      LessNext(length, |length|, i);
    }
    ghost var t := Ranks(length);
    RanksArePerm(length);
    forall r | 0 <= r < |length|
      ensures perm[r] < |length| && Rank(length, perm[r]) == r
    {
      var k := PermSurjective(t, |length|, r);
    }
  }

  ghost predicate Before(len: seq<byte>, i: nat, j: nat, s: nat)
    requires s < |len|
  {
    len[s] < i || (len[s] == i && s < j)
  }

  lemma NoOcc(len: seq<byte>, c: int)
    ensures Occ(len, 0, c) == 0
  {
  }

  lemma OccNext(len: seq<byte>, j: nat, c: int)
    requires j < |len|
    ensures Occ(len, j + 1, c) == Occ(len, j, c) + (if len[j] == c then 1 else 0)
  {
  }

  /** base[n] becomes the number of symbols with codes shorter than n. */
  method CountShorter(base: array<int>, length: seq<byte>)
    requires base.Length == MAX_CODE_LEN && LengthsIn(length, 1, LONGEST_CODE)
    modifies base
    ensures forall n :: 0 <= n < MAX_CODE_LEN ==> base[n] == Less(length, |length|, n)
  {
    for i := 0 to MAX_CODE_LEN
      invariant forall n :: 0 <= n < i ==> base[n] == 0
    {
      base[i] := 0;
    }
    for i := 0 to |length|
      invariant forall n :: 0 <= n < MAX_CODE_LEN ==> base[n] == Occ(length, i, n - 1)
    {
      base[length[i] + 1] := base[length[i] + 1] + 1;
    }
    NoneOutside(length, 1, LONGEST_CODE, 0, |length|);
    NoneOutside(length, 1, LONGEST_CODE, -1, |length|);
    for i := 1 to MAX_CODE_LEN
      invariant forall n :: 0 <= n < i ==> base[n] == Less(length, |length|, n)
      invariant forall n :: i <= n < MAX_CODE_LEN ==> base[n] == Occ(length, |length|, n - 1)
    {
      LessNext(length, |length|, i - 1);
      base[i] := base[i] + base[i - 1];
    }
  }

  /** limit[n] becomes the last code of length n, or zero where there are no codes. */
  method FillLimits(limit: array<int>, base: array<int>, length: seq<byte>, minLen: nat, maxLen: nat)
    requires limit.Length == MAX_CODE_LEN == base.Length && limit != base
    requires 1 <= minLen <= maxLen <= LONGEST_CODE && LengthsIn(length, minLen, maxLen)
    requires forall n: nat :: n < MAX_CODE_LEN ==> base[n] == Less(length, |length|, n)
    modifies limit
    ensures forall n: nat :: minLen <= n <= maxLen ==> limit[n] == First(length, n) + Occ(length, |length|, n) - 1
    ensures forall n: nat :: maxLen < n < MAX_CODE_LEN ==> limit[n] == 0
  {
    hide First, Less, Occ;
    for i := 0 to MAX_CODE_LEN
      invariant forall n :: 0 <= n < i ==> limit[n] == 0
    {
      limit[i] := 0;
    }
    var vec: int := 0;
    FirstZero(length, minLen, maxLen, minLen);
    for i := minLen to maxLen + 1
      invariant vec == First(length, i)
      invariant forall n: nat :: minLen <= n < i ==> limit[n] == First(length, n) + Occ(length, |length|, n) - 1
      invariant forall n: nat :: i <= n < MAX_CODE_LEN ==> limit[n] == 0
    {
      LessNext(length, |length|, i);
      FirstNext(length, i);
      vec := vec + (base[i + 1] - base[i]);
      limit[i] := vec - 1;
      vec := 2 * vec;
    }
  }

  /** base[n] becomes what must be taken off a code of length n to give its row. */
  method FillBase(limit: array<int>, base: array<int>, length: seq<byte>, minLen: nat, maxLen: nat)
    requires limit.Length == MAX_CODE_LEN == base.Length && limit != base
    requires 1 <= minLen <= maxLen <= LONGEST_CODE && LengthsIn(length, minLen, maxLen)
    requires forall n: nat :: n < MAX_CODE_LEN ==> base[n] == Less(length, |length|, n)
    requires forall n: nat :: minLen <= n <= maxLen ==> limit[n] == First(length, n) + Occ(length, |length|, n) - 1
    modifies base
    ensures forall n: nat :: minLen <= n <= maxLen ==> base[n] == First(length, n) - Less(length, |length|, n)
  {
    hide First, Less, Occ;
    FirstZero(length, minLen, maxLen, minLen);
    NoneOutside(length, minLen, maxLen, minLen, |length|);
    for i := minLen + 1 to maxLen + 1
      invariant forall n: nat :: minLen <= n < i ==> base[n] == First(length, n) - Less(length, |length|, n)
      invariant forall n: nat :: i <= n < MAX_CODE_LEN ==> base[n] == Less(length, |length|, n)
    {
      FirstNext(length, i - 1);
      base[i] := 2 * (limit[i - 1] + 1) - base[i];
    }
  }

  /** Builds the three tables for the codes of the given lengths. */
  method CreateDecodeTables(limit: array<int>, base: array<int>, perm: array<nat>, length: seq<byte>,
                            minLen: nat, maxLen: nat)
    requires limit.Length == MAX_CODE_LEN == base.Length && limit != base && |length| <= perm.Length
    requires perm as object != limit && perm as object != base
    requires 1 <= minLen <= maxLen <= LONGEST_CODE && LengthsIn(length, minLen, maxLen)
    modifies limit, base, perm
    ensures Tables(length, minLen, maxLen, limit[..], base[..], perm[..|length|])
  {
    hide First, Less, Occ, IsStableSort;
    SortByLength(perm, length, minLen, maxLen);
    CountShorter(base, length) by { assert LengthsIn(length, 1, LONGEST_CODE); }
    FillLimits(limit, base, length, minLen, maxLen);
    FillBase(limit, base, length, minLen, maxLen);
  }

  /** The row found in the sorted list belongs to a symbol of the length searched for. */
  lemma RowOfLength(len: seq<byte>, perm: seq<nat>, n: nat, k: nat)
    requires IsStableSort(len, perm) && k < Occ(len, |len|, n)
    ensures Less(len, |len|, n) + k < |len|
    ensures var s := perm[Less(len, |len|, n) + k]; s < |len| && len[s] == n && Occ(len, s, n) == k
  {
    hide Less, Occ;
    LessNext(len, |len|, n);
    LessAll(len, n + 1);
    var r := Less(len, |len|, n) + k;
    var s := perm[r];
    RankInRange(len, s);
    if len[s] < n {
      LessMonotone(len, |len|, len[s] as int + 1, n);
    } else if len[s] > n {
      LessMonotone(len, |len|, n + 1, len[s]);
    }
  }

  lemma LessAll(len: seq<byte>, c: int)
    ensures Less(len, |len|, c) <= |len|
  {
  }

  // ---- the search ----

  datatype Found = Symbol(sym: nat) | DataError | NeedInput

  /** The bits begin with the code word of s. */
  ghost predicate Matches(len: seq<byte>, s: nat, bits: seq<bool>) {
    s < |len| && Code(len, s) < Pow2(len[s]) && CodeWord(len, s) <= bits
  }

  ghost predicate NoneUpTo(len: seq<byte>, n: nat, bits: seq<bool>) {
    forall s :: 0 <= s < |len| && len[s] <= n ==> !Matches(len, s, bits)
  }

  /** The n bits read are past the codes of length n, so none of those is there. */
  lemma NoneOfLength(len: seq<byte>, n: nat, zvec: nat, bits: seq<bool>)
    requires n >= 1 && NoneUpTo(len, n - 1, bits)
    requires zvec < Pow2(n) && BitsOf(zvec, n) <= bits
    requires zvec >= First(len, n) + Occ(len, |len|, n)
    ensures NoneUpTo(len, n, bits)
  {
    hide BitsOf, First, Occ, Pow2, Matches, Code;
    forall s | 0 <= s < |len| && len[s] <= n ensures !Matches(len, s, bits) {
      if len[s] == n {
        CodeBounds(len, s);
        OneOfLength(len, s, n, zvec, bits);
      }
    }
  }

  lemma OneOfLength(len: seq<byte>, s: nat, n: nat, zvec: nat, bits: seq<bool>)
    requires s < |len| && len[s] == n && zvec < Pow2(n) && BitsOf(zvec, n) <= bits
    ensures Matches(len, s, bits) ==> Code(len, s) == zvec
  {
    hide BitsOf, First, Occ, Pow2, Code;
    if Matches(len, s, bits) {
      assert CodeWord(len, s) == bits[..n] == BitsOf(zvec, n);
      ValueOfBits(zvec, n);
      ValueOfBits(Code(len, s), n);
    }
  }

  lemma SomeFirst(len: seq<byte>, lo: nat, n: nat)
    requires exists s :: 0 <= s < |len| && len[s] == lo
    requires lo < n
    ensures First(len, n) >= 1
  {
    var s :| 0 <= s < |len| && len[s] == lo;
    OccMonotone(len, s, |len|, lo);
    FirstGrows(len, lo, n);
    MultipleFar(First(len, lo) + Occ(len, |len|, lo), Pow2(n - lo));
  }

  lemma OneMoreBit(bits: seq<bool>, zvec: nat, n: nat, bit: nat, rest: seq<bool>, rest1: seq<bool>)
    requires bits == BitsOf(zvec, n) + rest && bit < Pow2(1) && rest == BitsOf(bit, 1) + rest1 && zvec < Pow2(n)
    ensures 2 * zvec + bit < Pow2(n + 1) && bits == BitsOf(2 * zvec + bit, n + 1) + rest1
  {
    assert Pow2(1) == 2;
    BitsOfSum(zvec, n, bit, 1);
  }

  /** The search of the decoder: n bits have been read, they are zvec, and no symbol's code
      word of fewer bits is there. */
  ghost predicate Searching(len: seq<byte>, minLen: nat, bits: seq<bool>, pending: seq<bool>, n: nat, zvec: nat) {
    && 1 <= minLen <= n && zvec < Pow2(n) && bits == BitsOf(zvec, n) + pending
    && zvec >= First(len, n)
    && NoneUpTo(len, n - 1, bits)
  }

  lemma SearchStart(len: seq<byte>, minLen: nat, maxLen: nat, bits: seq<bool>, pending: seq<bool>, zvec: nat)
    requires LengthsIn(len, minLen, maxLen) && minLen >= 1
    requires zvec < Pow2(minLen) && bits == BitsOf(zvec, minLen) + pending
    ensures Searching(len, minLen, bits, pending, minLen, zvec)
  {
    FirstZero(len, minLen, maxLen, minLen);
  }

  lemma SearchStep(len: seq<byte>, minLen: nat, bits: seq<bool>, p0: seq<bool>, p1: seq<bool>, n: nat, zvec: nat,
                   bit: nat)
    requires Searching(len, minLen, bits, p0, n, zvec) && n >= 1
    requires zvec >= First(len, n) + Occ(len, |len|, n)
    requires bit < Pow2(1) && p0 == BitsOf(bit, 1) + p1
    ensures Searching(len, minLen, bits, p1, n + 1, 2 * zvec + bit)
  {
    hide BitsOf, First, Occ, Pow2, NoneUpTo;
    NoneOfLength(len, n, zvec, bits);
    OneMoreBit(bits, zvec, n, bit, p0, p1);
    FirstNext(len, n);
  }

  /** Past the longest code the table holds zeros, which no search value can meet. */
  lemma LimitSays(len: seq<byte>, minLen: nat, maxLen: nat, limit: seq<int>, base: seq<int>, perm: seq<nat>,
                  bits: seq<bool>, pending: seq<bool>, n: nat, zvec: nat)
    requires Tables(len, minLen, maxLen, limit, base, perm) && Searching(len, minLen, bits, pending, n, zvec)
    requires LengthsIn(len, minLen, maxLen) && 1 <= minLen <= n <= LONGEST_CODE && len != [] && maxLen <= LONGEST_CODE
    ensures |limit| == MAX_CODE_LEN && |base| == MAX_CODE_LEN
    ensures zvec > limit[n] ==> zvec >= First(len, n) + Occ(len, |len|, n)
    ensures zvec <= limit[n] ==>
              var k := zvec - base[n];
              && 0 <= k < |len| == |perm|
              && perm[k] < |len| && len[perm[k]] == n && Code(len, perm[k]) == zvec
  {
    hide BitsOf, First, Occ, Less, Pow2, Searching, Tables, LengthsIn, IsStableSort;
    TablesAt(len, minLen, maxLen, limit, base, perm, n);
    SearchAbove(len, minLen, bits, pending, n, zvec);
    if n > maxLen {
      FirstShort(len, minLen, maxLen, n);
      NoneOutside(len, minLen, maxLen, n, |len|);
    } else if zvec <= limit[n] {
      RowOfLength(len, perm, n, zvec - First(len, n));
      PermSize(len, perm);
    }
  }

  lemma TablesAt(len: seq<byte>, minLen: nat, maxLen: nat, limit: seq<int>, base: seq<int>, perm: seq<nat>, n: nat)
    requires Tables(len, minLen, maxLen, limit, base, perm) && minLen <= n <= LONGEST_CODE
    ensures n < MAX_CODE_LEN == |limit| == |base| && IsStableSort(len, perm)
    ensures limit[n] == if n <= maxLen then First(len, n) + Occ(len, |len|, n) - 1 else 0
    ensures n <= maxLen ==> base[n] == First(len, n) - Less(len, |len|, n)
  {
    hide First, Occ, Less, IsStableSort;
  }

  lemma SearchAbove(len: seq<byte>, minLen: nat, bits: seq<bool>, pending: seq<bool>, n: nat, zvec: nat)
    requires Searching(len, minLen, bits, pending, n, zvec)
    ensures zvec >= First(len, n)
  {
  }

  lemma FirstShort(len: seq<byte>, minLen: nat, maxLen: nat, n: nat)
    requires len != [] && LengthsIn(len, minLen, maxLen) && maxLen < n
    ensures First(len, n) >= 1
  {
    hide First;
    assert len[0] < n;
    SomeFirst(len, len[0], n);
  }

  lemma PermSize(len: seq<byte>, perm: seq<nat>)
    requires IsStableSort(len, perm)
    ensures |perm| == |len|
  {
  }

  lemma SearchHit(len: seq<byte>, minLen: nat, bits: seq<bool>, pending: seq<bool>, n: nat, zvec: nat, s: nat)
    requires Searching(len, minLen, bits, pending, n, zvec) && s < |len| && len[s] == n && Code(len, s) == zvec
    ensures Matches(len, s, bits) && bits == CodeWord(len, s) + pending
  {
  }

  /** When the search has gone past every length, or has consumed every bit, nothing matches. */
  lemma SearchMiss(len: seq<byte>, minLen: nat, bits: seq<bool>, pending: seq<bool>, n: nat, zvec: nat)
    requires Searching(len, minLen, bits, pending, n, zvec) && n >= 1 && LengthsIn(len, minLen, LONGEST_CODE)
    requires n > LONGEST_CODE || (pending == [] && zvec >= First(len, n) + Occ(len, |len|, n))
    ensures forall s: nat :: !Matches(len, s, bits)
    ensures |bits| == n + |pending|
  {
    hide BitsOf, First, Occ, Pow2;
    if n <= LONGEST_CODE { NoneOfLength(len, n, zvec, bits); }
    forall s: nat ensures !Matches(len, s, bits) { LongWord(len, s, bits); }
  }

  lemma LongWord(len: seq<byte>, s: nat, bits: seq<bool>)
    ensures Matches(len, s, bits) ==> len[s] <= |bits|
  {
    hide BitsOf, First, Occ, Pow2;
  }

  lemma TooShort(len: seq<byte>, minLen: nat, bits: seq<bool>)
    requires LengthsIn(len, minLen, LONGEST_CODE) && |bits| < minLen
    ensures forall s: nat :: !Matches(len, s, bits)
  {
    forall s: nat ensures !Matches(len, s, bits) { LongWord(len, s, bits); }
  }

  datatype DecodeTable = DecodeTable(limit: seq<int>, base: seq<int>, perm: seq<nat>, minLen: nat)

  function Longest(len: seq<byte>, k: nat): nat
    requires k <= |len|
  {
    if k == 0 then 0 else
    var m := Longest(len, k - 1);
    if len[k - 1] > m then len[k - 1] else m
  }

  ghost predicate TableFor(t: DecodeTable, len: seq<byte>) {
    var maxLen := Longest(len, |len|);
    && 1 <= t.minLen <= maxLen <= LONGEST_CODE && LengthsIn(len, t.minLen, maxLen) && 0 < |len| <= MAX_ALPHABET
    && Tables(len, t.minLen, maxLen, t.limit, t.base, t.perm)
  }

  /** Reads one symbol.  A symbol comes out exactly when its code word is what the input begins
      with, and then exactly the bits of that word are consumed; otherwise no code word is
      there. */
  method GetSymbol(r: BitReader, t: DecodeTable, ghost len: seq<byte>) returns (f: Found)
    requires r.Valid() && TableFor(t, len)
    modifies r
    ensures r.Valid()
    ensures |r.Pending()| <= |old(r.Pending())|
    ensures f.Symbol? ==>
              Matches(len, f.sym, old(r.Pending())) && old(r.Pending()) == CodeWord(len, f.sym) + r.Pending()
    ensures !f.Symbol? ==> forall s: nat :: !Matches(len, s, old(r.Pending()))
    ensures f.NeedInput? ==> |old(r.Pending())| <= LONGEST_CODE
    ensures f.DataError? ==> |old(r.Pending())| > LONGEST_CODE
  {
    hide Searching, Tables, Matches, Code, CodeWord, BitsOf, Pow2, LengthsIn, First, Occ;
    ghost var bits, maxLen := r.Pending(), Longest(len, |len|);
    var zn: nat := t.minLen;
    var ok;
    var zvec: nat;
    ok, zvec := r.GetBits(zn);
    if !ok {
      LengthsTop(len, t.minLen, maxLen);
      TooShort(len, t.minLen, bits);
      return NeedInput;
    }
    SearchStart(len, t.minLen, maxLen, bits, r.Pending(), zvec);
    while true
      invariant r.Valid() && 1 <= zn <= LONGEST_CODE + 1
      invariant |r.Pending()| <= |old(r.Pending())|
      invariant Searching(len, t.minLen, bits, r.Pending(), zn, zvec) && t.minLen <= zn
      decreases LONGEST_CODE + 1 - zn
    {
      LengthsTop(len, t.minLen, maxLen);
      if zn > LONGEST_CODE {
        SearchMiss(len, t.minLen, bits, r.Pending(), zn, zvec);
        return DataError;
      }
      LimitSays(len, t.minLen, maxLen, t.limit, t.base, t.perm, bits, r.Pending(), zn, zvec);
      if zvec <= t.limit[zn] { break; }
      ghost var p0 := r.Pending();
      var more, zj := r.GetBits(1);
      if !more {
        SearchMiss(len, t.minLen, bits, p0, zn, zvec);
        return NeedInput;
      }
      SearchStep(len, t.minLen, bits, p0, r.Pending(), zn, zvec, zj);
      zn := zn + 1;
      zvec := 2 * zvec + zj;
    }
    var k := zvec - t.base[zn];
    if k < 0 || k >= MAX_ALPHABET { return DataError; }
    SearchHit(len, t.minLen, bits, r.Pending(), zn, zvec, t.perm[k]);
    return Symbol(t.perm[k]);
  }

  lemma LengthsTop(len: seq<byte>, lo: nat, hi: nat)
    requires LengthsIn(len, lo, hi) && hi <= LONGEST_CODE
    ensures LengthsIn(len, lo, LONGEST_CODE)
  {
  }
}
