/** The receiving half of the block format.  Every method accepts any input; the ghost
    arguments name something that may have been sent, and the contracts say that it comes out
    again whenever its bits are what the input begins with. */
module BlockReader {
  import opened Powers
  import opened Rotations
  import opened MoveToFront
  import opened Bits
  import opened BitStream
  import opened CanonicalCodes
  import opened BlockFormat
  import opened BlockWriter

  // ---- bytes in use ----

  ghost predicate FlagsOf(inUse16: seq<bool>, x: seq<bool>) {
    |inUse16| == 16 && |x| == 256 && forall k :: 0 <= k < 16 ==> inUse16[k] == Any(x, 16 * k, 16)
  }

  /** The flags from the i-th on are still to come. */
  ghost predicate FlagsLeft(pending: seq<bool>, inUse16: seq<bool>, x: seq<bool>, i: nat, rest: seq<bool>) {
    && |x| == 256 && i <= 16 && |inUse16| == i
    && pending == FlagBits(x, i) + rest
    && forall k :: 0 <= k < i ==> inUse16[k] == Any(x, 16 * k, 16)
  }

  lemma NextFlag(pending: seq<bool>, inUse16: seq<bool>, x: seq<bool>, i: nat, rest: seq<bool>)
    requires FlagsLeft(pending, inUse16, x, i, rest) && i < 16
    ensures pending != [] && FlagsLeft(pending[1..], inUse16 + [pending[0]], x, i + 1, rest)
  {
    hide Any;
    Assoc([Any(x, 16 * i, 16)], FlagBits(x, i + 1), rest);
  }

  lemma LastFlag(pending: seq<bool>, inUse16: seq<bool>, x: seq<bool>, rest: seq<bool>)
    requires FlagsLeft(pending, inUse16, x, 16, rest)
    ensures pending == rest && FlagsOf(inUse16, x)
  {
    assert FlagBits(x, 16) + rest == rest;
  }

  method ReceiveFlags(r: BitReader, ghost x: seq<bool>, ghost rest: seq<bool>) returns (ok: bool, inUse16: seq<bool>)
    requires r.Valid() && |x| == 256
    modifies r
    ensures r.Valid() && (ok ==> |inUse16| == 16)
    ensures |r.Pending()| <= |old(r.Pending())|
    ensures old(r.Pending()) == FlagBits(x, 0) + rest ==> ok && r.Pending() == rest && FlagsOf(inUse16, x)
  {
    hide Any, BitsOf, BytesBits, LowHolds, FlagBits;
    inUse16 := [];
    ghost var honest := r.Pending() == FlagBits(x, 0) + rest;
    assert honest ==> FlagsLeft(r.Pending(), inUse16, x, 0, rest);
    hide FlagsLeft, FlagsOf;
    for i := 0 to 16
      invariant r.Valid() && |inUse16| == i
      invariant |r.Pending()| <= |old(r.Pending())|
      invariant honest ==> FlagsLeft(r.Pending(), inUse16, x, i, rest)
    {
      if honest { NextFlag(r.Pending(), inUse16, x, i, rest); }
      var bit;
      ok, bit := GetBit(r);
      if !ok { return; }
      inUse16 := inUse16 + [bit];
    }
    if honest { LastFlag(r.Pending(), inUse16, x, rest); }
    ok := true;
  }

  /** The first m bytes' marks are those of x, the rest are clear. */
  ghost predicate MarkedUpTo(inUse: seq<bool>, x: seq<bool>, m: nat) {
    && |inUse| == |x| == 256 && m <= 256 && inUse[..m] == x[..m]
    && forall k :: m <= k < 256 ==> !inUse[k]
  }

  lemma MarkNext(inUse: seq<bool>, x: seq<bool>, m: nat)
    requires MarkedUpTo(inUse, x, m) && m < 256
    ensures MarkedUpTo(if x[m] then inUse[m := true] else inUse, x, m + 1)
  {
    var y := if x[m] then inUse[m := true] else inUse;
    assert y[..m + 1] == x[..m + 1] by {
      assert x[..m + 1] == x[..m] + [x[m]];
      assert y[..m + 1] == inUse[..m] + [y[m]];
    }
  }

  lemma SkipSixteen(inUse: seq<bool>, x: seq<bool>, m: nat)
    requires MarkedUpTo(inUse, x, m) && m + 16 <= 256 && !Any(x, m, 16)
    ensures MarkedUpTo(inUse, x, m + 16)
  {
    forall k | m <= k < m + 16 ensures !x[k] {
      if x[k] { NoneUsed(x, m, 16, k - m); }
    }
    forall k | 0 <= k < m + 16 ensures inUse[k] == x[k] {
      if k < m { assert inUse[..m][k] == x[..m][k]; }
    }
  }

  method ReceiveSixteen(r: BitReader, inUse: array<bool>, start: nat, ghost x: seq<bool>, ghost rest: seq<bool>)
    returns (ok: bool)
    requires r.Valid() && inUse.Length == 256 == |x| && start + 16 <= 256
    modifies r, inUse
    ensures r.Valid()
    ensures |r.Pending()| <= |old(r.Pending())|
    ensures MarkedUpTo(old(inUse[..]), x, start) && old(r.Pending()) == x[start..start + 16] + rest ==>
              ok && r.Pending() == rest && MarkedUpTo(inUse[..], x, start + 16)
  {
    hide BitsOf, BytesBits, LowHolds, MarkedUpTo;
    for j := 0 to 16
      invariant r.Valid()
      invariant |r.Pending()| <= |old(r.Pending())|
      invariant MarkedUpTo(old(inUse[..]), x, start) && old(r.Pending()) == x[start..start + 16] + rest ==>
                  r.Pending() == x[start + j..start + 16] + rest && MarkedUpTo(inUse[..], x, start + j)
    {
      if MarkedUpTo(inUse[..], x, start + j) { MarkNext(inUse[..], x, start + j); }
      assert x[start + j..start + 16] == [x[start + j]] + x[start + j + 1..start + 16];
      Assoc([x[start + j]], x[start + j + 1..start + 16], rest);
      var bit;
      ok, bit := GetBit(r);
      if !ok { return; }
      if bit { inUse[start + j] := true; }
    }
    assert x[start + 16..start + 16] + rest == rest;
    ok := true;
  }

  /** The sixteens from the i-th on are still to come. */
  ghost predicate MembersLeft(pending: seq<bool>, inUse: seq<bool>, x: seq<bool>, i: nat, rest: seq<bool>) {
    |x| == 256 && i <= 16 && pending == MemberBits(x, i) + rest && MarkedUpTo(inUse, x, 16 * i)
  }

  lemma NextMembers(pending: seq<bool>, inUse: seq<bool>, x: seq<bool>, i: nat, rest: seq<bool>)
    requires MembersLeft(pending, inUse, x, i, rest) && i < 16
    ensures Any(x, 16 * i, 16) ==> pending == x[16 * i..16 * i + 16] + (MemberBits(x, i + 1) + rest)
    ensures !Any(x, 16 * i, 16) ==> MembersLeft(pending, inUse, x, i + 1, rest)
  {
    hide Any, MarkedUpTo;
    if Any(x, 16 * i, 16) {
      Assoc(x[16 * i..16 * i + 16], MemberBits(x, i + 1), rest);
    } else {
      SkipSixteen(inUse, x, 16 * i);
      assert MemberBits(x, i) == MemberBits(x, i + 1);
    }
  }

  lemma LastMembers(pending: seq<bool>, inUse: seq<bool>, x: seq<bool>, rest: seq<bool>)
    requires MembersLeft(pending, inUse, x, 16, rest)
    ensures pending == rest && inUse == x
  {
    assert MemberBits(x, 16) + rest == rest;
    MarkAll(inUse, x);
  }

  lemma MembersReceived(pending: seq<bool>, inUse: seq<bool>, x: seq<bool>, i: nat, rest: seq<bool>)
    requires |x| == 256 && i <= 16 && pending == MemberBits(x, i) + rest && MarkedUpTo(inUse, x, 16 * i)
    ensures MembersLeft(pending, inUse, x, i, rest)
  {
  }

  lemma MembersMarked(pending: seq<bool>, inUse: seq<bool>, x: seq<bool>, i: nat, rest: seq<bool>)
    requires MembersLeft(pending, inUse, x, i, rest)
    ensures MarkedUpTo(inUse, x, 16 * i)
  {
  }

  method ReceiveMembers(r: BitReader, inUse: array<bool>, inUse16: seq<bool>, ghost x: seq<bool>, ghost rest: seq<bool>)
    returns (ok: bool)
    requires r.Valid() && |x| == 256 == inUse.Length && |inUse16| == 16
    modifies r, inUse
    ensures r.Valid()
    ensures |r.Pending()| <= |old(r.Pending())|
    ensures MarkedUpTo(old(inUse[..]), x, 0) && FlagsOf(inUse16, x) && old(r.Pending()) == MemberBits(x, 0) + rest ==>
              ok && inUse[..] == x && r.Pending() == rest
  {
    hide Any, BitsOf, BytesBits, LowHolds, MarkedUpTo, MembersLeft, MemberBits;
    ghost var honest := MarkedUpTo(inUse[..], x, 0) && FlagsOf(inUse16, x) && r.Pending() == MemberBits(x, 0) + rest;
    if honest { MembersReceived(r.Pending(), inUse[..], x, 0, rest); }
    for i := 0 to 16
      invariant r.Valid()
      invariant |r.Pending()| <= |old(r.Pending())|
      invariant honest ==> MembersLeft(r.Pending(), inUse[..], x, i, rest)
    {
      if honest {
        NextMembers(r.Pending(), inUse[..], x, i, rest);
        MembersMarked(r.Pending(), inUse[..], x, i, rest);
      }
      if inUse16[i] {
        ok := ReceiveSixteen(r, inUse, 16 * i, x, MemberBits(x, i + 1) + rest);
        if !ok { return; }
        if honest { MembersReceived(r.Pending(), inUse[..], x, i + 1, rest); }
      }
    }
    if honest { LastMembers(r.Pending(), inUse[..], x, rest); }
    ok := true;
  }

  method ReceiveMapping(r: BitReader, ghost x: seq<bool>, ghost rest: seq<bool>) returns (ok: bool, inUse: array<bool>)
    requires r.Valid() && |x| == 256
    modifies r
    ensures r.Valid() && fresh(inUse) && inUse.Length == 256
    ensures |r.Pending()| <= |old(r.Pending())|
    ensures old(r.Pending()) == MappingBits(x) + rest ==> ok && inUse[..] == x && r.Pending() == rest
  {
    hide Any, BitsOf, BytesBits, LowHolds, MarkedUpTo, FlagsOf;
    Assoc(FlagBits(x, 0), MemberBits(x, 0), rest);
    var inUse16;
    ok, inUse16 := ReceiveFlags(r, x, MemberBits(x, 0) + rest);
    inUse := new bool[256](_ => false);
    if !ok { return; }
    MarkNone(inUse[..], x);
    ok := ReceiveMembers(r, inUse, inUse16, x, rest);
  }

  lemma MarkNone(inUse: seq<bool>, x: seq<bool>)
    requires |inUse| == 256 == |x| && forall k :: 0 <= k < 256 ==> !inUse[k]
    ensures MarkedUpTo(inUse, x, 0)
  {
  }

  lemma MarkAll(inUse: seq<bool>, x: seq<bool>)
    requires MarkedUpTo(inUse, x, 256)
    ensures inUse == x
  {
  }

  // ---- selectors ----

  datatype AfterRank = Past(bits: seq<bool>) | NoRank

  /** What is left once the ones up to a zero are passed: there may be fewer than g of them, and
      j have been passed. */
  function NextRank(pending: seq<bool>, j: nat, g: nat): AfterRank
    requires j < g
    decreases g - j
  {
    if pending == [] then NoRank
    else if !pending[0] then Past(pending[1..])
    else if j + 1 < g then NextRank(pending[1..], j + 1, g)
    else NoRank
  }

  /** The input begins with k ranks below g. */
  ghost predicate RanksAhead(pending: seq<bool>, g: nat, k: nat)
    requires g > 0
    decreases k
  {
    k == 0 || (var next := NextRank(pending, 0, g); next.Past? && RanksAhead(next.bits, g, k - 1))
  }

  lemma {:induction false} FewerAhead(pending: seq<bool>, g: nat, k: nat, m: nat)
    requires g > 0 && k <= m && RanksAhead(pending, g, m)
    ensures RanksAhead(pending, g, k)
    decreases k
  {
    if k > 0 { FewerAhead(NextRank(pending, 0, g).bits, g, k - 1, m - 1); }
  }

  /** A rank below g, sent, is a rank ahead, and the other way round. */
  lemma {:induction false} UnaryAhead(pending: seq<bool>, j: nat, x: nat, g: nat)
    requires j + x < g && Unary(x) <= pending
    ensures NextRank(pending, j, g) == Past(pending[|Unary(x)|..])
    decreases x
  {
    if x > 0 {
      assert pending[1..][|Unary(x - 1)|..] == pending[|Unary(x)|..];
      UnaryAhead(pending[1..], j + 1, x - 1, g);
    }
  }

  lemma {:induction false} AheadIsUnary(pending: seq<bool>, j: nat, g: nat) returns (x: nat)
    requires j < g && NextRank(pending, j, g).Past?
    ensures j + x < g && pending == Unary(x) + NextRank(pending, j, g).bits
    decreases g - j
  {
    x := 0;
    if pending[0] {
      var y := AheadIsUnary(pending[1..], j + 1, g);
      x := y + 1;
      assert pending == [true] + pending[1..];
    }
  }

  /** The ranks that lie ahead, as numbers. */
  lemma {:induction false} RanksAheadAreSent(pending: seq<bool>, g: nat, k: nat) returns (m: seq<nat>)
    requires g > 0 && RanksAhead(pending, g, k)
    ensures |m| == k && RanksBelow(m, g) && SelectorBits(m, 0) <= pending
    decreases k
  {
    m := [];
    if k > 0 {
      var x := AheadIsUnary(pending, 0, g);
      var t := RanksAheadAreSent(NextRank(pending, 0, g).bits, g, k - 1);
      m := [x] + t;
      SelectorsFrom(m, 1);
      assert m[1..] == t;
    }
  }

  lemma {:induction false} SentRanksAhead(pending: seq<bool>, g: nat, m: seq<nat>)
    requires g > 0 && RanksBelow(m, g) && SelectorBits(m, 0) <= pending
    ensures RanksAhead(pending, g, |m|)
    decreases |m|
  {
    if m != [] {
      SelectorsFrom(m, 1);
      var u := Unary(m[0]);
      assert SelectorBits(m, 0) == u + SelectorBits(m, 1);
      assert u <= pending;
      UnaryAhead(pending, 0, m[0], g);
      assert SelectorBits(m[1..], 0) <= pending[|u|..];
      SentRanksAhead(pending[|u|..], g, m[1..]);
    }
  }

  lemma {:induction false} SelectorsFrom(m: seq<nat>, i: nat)
    requires i <= |m|
    ensures SelectorBits(m[i..], 0) == SelectorBits(m, i)
    decreases |m| - i
  {
    SelectorsShift(m, i, 0);
  }

  lemma {:induction false} SelectorsShift(m: seq<nat>, i: nat, k: nat)
    requires i + k <= |m|
    ensures SelectorBits(m[i..], k) == SelectorBits(m, i + k)
    decreases |m| - i - k
  {
    hide *;
    var t := m[i..];
    if i + k < |m| {
      SelectorsShift(m, i, k + 1);
      assert t[k] == m[i + k];
      SelectorsNext(t, k);
      SelectorsNext(m, i + k);
    } else {
      SelectorsEnd(t);
      SelectorsEnd(m);
    }
  }

  lemma SelectorsEnd(m: seq<nat>)
    ensures SelectorBits(m, |m|) == []
  {
  }

  lemma SelectorsNext(m: seq<nat>, i: nat)
    requires i < |m|
    ensures SelectorBits(m, i) == Unary(m[i]) + SelectorBits(m, i + 1)
  {
    hide Unary;
  }

  method ReceiveUnary(r: BitReader, nGroups: nat, ghost x: nat, ghost rest: seq<bool>) returns (ok: bool, j: nat)
    requires r.Valid()
    modifies r
    ensures r.Valid() && (ok && nGroups > 0 ==> j < nGroups)
    ensures |r.Pending()| <= |old(r.Pending())|
    ensures x < nGroups && old(r.Pending()) == Unary(x) + rest ==> ok && j == x && r.Pending() == rest
    ensures nGroups > 0 ==> NextRank(old(r.Pending()), 0, nGroups) == if ok then Past(r.Pending()) else NoRank
  {
    hide BitsOf, BytesBits, LowHolds;
    j := 0;
    while true
      invariant r.Valid() && (nGroups > 0 ==> j < nGroups)
      invariant |r.Pending()| <= |old(r.Pending())|
      invariant nGroups > 0 ==> NextRank(old(r.Pending()), 0, nGroups) == NextRank(r.Pending(), j, nGroups)
      invariant x < nGroups && old(r.Pending()) == Unary(x) + rest ==> j <= x && r.Pending() == Unary(x - j) + rest
      decreases |r.Pending()|
    {
      if j <= x { UnaryStep(x - j, rest); }
      var uc;
      ok, uc := GetBit(r);
      if !ok || !uc { return; }
      j := j + 1;
      if j >= nGroups { ok := false; return; }
    }
  }

  lemma UnaryStep(n: nat, rest: seq<bool>)
    ensures (Unary(n) + rest)[0] == (n > 0)
    ensures (Unary(n) + rest)[1..] == if n > 0 then Unary(n - 1) + rest else rest
  {
  }

  ghost predicate RanksBelow(m: seq<nat>, g: nat) {
    forall k :: 0 <= k < |m| ==> m[k] < g
  }

  /** i ranks have been read. */
  ghost predicate RanksPast(pending0: seq<bool>, pending: seq<bool>, g: nat, i: nat)
    requires g > 0
  {
    RanksAhead(pending0, g, i) && forall k: nat :: RanksAhead(pending0, g, i + k) <==> RanksAhead(pending, g, k)
  }

  lemma NoneYet(pending: seq<bool>, g: nat)
    requires g > 0
    ensures RanksPast(pending, pending, g, 0) && RanksAhead(pending, g, 0)
  {
  }

  lemma OneRank(pending0: seq<bool>, before: seq<bool>, g: nat, i: nat, n: nat)
    requires g > 0 && RanksPast(pending0, before, g, i) && i < n
    ensures NextRank(before, 0, g).NoRank? ==>
              !RanksAhead(pending0, g, n) && (i <= MAX_SELECTORS ==> !RanksAhead(pending0, g, MAX_SELECTORS + 1))
    ensures NextRank(before, 0, g).Past? ==>
              RanksPast(pending0, NextRank(before, 0, g).bits, g, i + 1) && RanksAhead(pending0, g, i + 1)
  {
    hide NextRank;
    var next := NextRank(before, 0, g);
    assert RanksAhead(pending0, g, i + 1) <==> RanksAhead(before, g, 1);
    if next.NoRank? {
      if RanksAhead(pending0, g, n) { FewerAhead(pending0, g, i + 1, n); }
      if i <= MAX_SELECTORS && RanksAhead(pending0, g, MAX_SELECTORS + 1) {
        FewerAhead(pending0, g, i + 1, MAX_SELECTORS + 1);
      }
    } else {
      assert RanksAhead(next.bits, g, 0);
      forall k: nat ensures RanksAhead(pending0, g, i + 1 + k) <==> RanksAhead(next.bits, g, k) {
        assert RanksAhead(pending0, g, i + (k + 1)) <==> RanksAhead(before, g, k + 1);
      }
    }
  }

  /** An input that makes it happen: a zero for each rank. */
  lemma {:induction false} ZerosAreRanks(n: nat, g: nat)
    requires g > 0
    ensures RanksAhead(seq(n, _ => false), g, n)
  {
    if n > 0 {
      assert seq(n, _ => false)[1..] == seq(n - 1, _ => false);
      ZerosAreRanks(n - 1, g);
    }
  }

  lemma NextSent(x: seq<nat>, i: nat, rest: seq<bool>)
    requires i < |x|
    ensures SelectorBits(x, i) + rest == Unary(x[i]) + (SelectorBits(x, i + 1) + rest)
  {
    Assoc(Unary(x[i]), SelectorBits(x, i + 1), rest);
  }

  lemma AllSent(x: seq<nat>, rest: seq<bool>)
    ensures SelectorBits(x, |x|) + rest == rest
  {
  }

  /** What became of the selectors.  Overrun is the store of one more rank than the array has
      cells for; what the source does from there on is undefined, and the model stops. */
  datatype RanksRead = AllRead | Refused | Overrun

  /** Ranks in unary, each stored as it has been read; their number is not checked against the
      array.  All stores stay inside exactly as long as no more ranks than it has cells come. */
  method ReceiveSelectors(r: BitReader, nGroups: nat, nSelectors: nat, ghost x: seq<nat>, ghost rest: seq<bool>)
    returns (outcome: RanksRead, selectorMtf: array<nat>)
    requires r.Valid() && nGroups > 0
    modifies r
    ensures r.Valid() && fresh(selectorMtf) && selectorMtf.Length == MAX_SELECTORS
    ensures |r.Pending()| <= |old(r.Pending())|
    ensures outcome.Overrun? <==> nSelectors > MAX_SELECTORS && RanksAhead(old(r.Pending()), nGroups, MAX_SELECTORS + 1)
    ensures outcome.AllRead? <==> nSelectors <= MAX_SELECTORS && RanksAhead(old(r.Pending()), nGroups, nSelectors)
    ensures outcome.AllRead? ==> RanksBelow(selectorMtf[..nSelectors], nGroups)
    ensures |x| == nSelectors <= MAX_SELECTORS && RanksBelow(x, nGroups)
            && old(r.Pending()) == SelectorBits(x, 0) + rest ==>
              outcome.AllRead? && selectorMtf[..nSelectors] == x && r.Pending() == rest
  {
    hide BitsOf, BytesBits, LowHolds, NextRank, RanksAhead, RanksPast, Unary, SelectorBits, BitReader.Valid,
         BitReader.Pending;
    ghost var honest := |x| == nSelectors <= MAX_SELECTORS && RanksBelow(x, nGroups)
                        && r.Pending() == SelectorBits(x, 0) + rest;
    ghost var pending0 := r.Pending();
    selectorMtf := new nat[MAX_SELECTORS];
    NoneYet(pending0, nGroups);
    for i := 0 to nSelectors
      modifies r, selectorMtf
      invariant r.Valid() && i <= MAX_SELECTORS && forall k :: 0 <= k < i ==> selectorMtf[k] < nGroups
      invariant |r.Pending()| <= |old(r.Pending())|
      invariant RanksPast(pending0, r.Pending(), nGroups, i) && RanksAhead(pending0, nGroups, i)
      invariant honest ==> r.Pending() == SelectorBits(x, i) + rest && selectorMtf[..i] == x[..i]
    {
      if honest { NextSent(x, i, rest); }
      ghost var before := r.Pending();
      var ok, j := ReceiveUnary(r, nGroups, if honest then x[i] else 0,
                                if honest then SelectorBits(x, i + 1) + rest else []);
      OneRank(pending0, before, nGroups, i, nSelectors);
      if !ok { return Refused, selectorMtf; }
      if i >= selectorMtf.Length { return Overrun, selectorMtf; }
      selectorMtf[i] := j;
    }
    if honest { AllSent(x, rest); }
    outcome := AllRead;
  }

  /** Undoes the ranks: the entry at the rank comes to the front of pos. */
  method UndoSelectorMtf(selectorMtf: array<nat>, nSelectors: nat, nGroups: nat, ghost x: seq<byte>)
    returns (selector: array<byte>)
    requires nSelectors <= selectorMtf.Length == MAX_SELECTORS
    requires 0 < nGroups <= 256 && RanksBelow(selectorMtf[..nSelectors], nGroups)
    ensures fresh(selector) && selector.Length == MAX_SELECTORS && AllBelow(selector[..nSelectors], nGroups)
    ensures AllBelow(x, nGroups) && selectorMtf[..nSelectors] == SelectorRanks(nGroups, x) ==>
              selector[..nSelectors] == x
  {
    hide ListAfter, IndexOf;
    ghost var ranks := selectorMtf[..nSelectors];
    ghost var known := AllBelow(x, nGroups) && ranks == SelectorRanks(nGroups, x);
    var pos := new byte[nGroups];
    for v := 0 to nGroups
      modifies pos
      invariant forall k :: 0 <= k < v ==> v <= 256 && pos[k] == k
    {
      pos[v] := v;
    }
    if AllBelow(x, nGroups) { PosStart(pos[..], nGroups, x); }
    selector := new byte[MAX_SELECTORS];
    for i := 0 to nSelectors
      modifies pos, selector
      invariant AllBelow(selector[..i], nGroups) && AllBelow(pos[..], nGroups)
      invariant known ==> i <= |x| && selector[..i] == x[..i] && pos[..] == ListAfter(nGroups, x, i)
    {
      if known {
        PosHas(nGroups, x, i);
        ListStep(nGroups, x, i);
      }
      assert ranks[i] == selectorMtf[i];
      assert AllBelow(ToFront(pos[..], selectorMtf[i]), nGroups) by { ToFrontBelow(pos[..], selectorMtf[i], nGroups); }
      var tmp := Raise(pos, selectorMtf[i]);
      selector[i] := tmp;
      assert selector[..i + 1] == selector[..i] + [tmp];
    }
  }

  lemma ToFrontBelow(l: seq<byte>, j: nat, n: nat)
    requires j < |l| && AllBelow(l, n)
    ensures AllBelow(ToFront(l, j), n)
  {
    forall k | 0 <= k < |l| ensures ToFront(l, j)[k] < n { ToFrontEntries(l, j, k); }
  }

  method Raise(pos: array<byte>, v0: nat) returns (tmp: byte)
    requires v0 < pos.Length
    modifies pos
    ensures tmp == old(pos[v0]) && pos[..] == ToFront(old(pos[..]), v0)
  {
    ghost var l := pos[..];
    tmp := pos[v0];
    var v := v0;
    while v > 0
      invariant 0 <= v <= v0
      invariant forall k {:trigger pos[k]} :: 0 <= k < |l| && !(v < k <= v0) ==> pos[k] == l[k]
      invariant forall k {:trigger pos[k]} :: v < k <= v0 ==> pos[k] == l[k - 1]
    {
      pos[v] := pos[v - 1];
      v := v - 1;
    }
    pos[0] := tmp;
    forall k | 0 <= k < |l| ensures pos[k] == ToFront(l, v0)[k] { ToFrontEntries(l, v0, k); }
  }

  // ---- code lengths ----

  /** One length, reached from the previous one by steps; never left outside 1..20. */
  method ReceiveDelta(r: BitReader, curr0: nat, ghost x: nat, ghost rest: seq<bool>) returns (ok: bool, curr: nat)
    requires r.Valid()
    modifies r
    ensures r.Valid() && (ok ==> 1 <= curr <= LONGEST_CODE)
    ensures |r.Pending()| <= |old(r.Pending())|
    ensures 1 <= curr0 <= LONGEST_CODE && 1 <= x <= LONGEST_CODE && old(r.Pending()) == Delta(curr0, x) + rest ==>
              ok && curr == x && r.Pending() == rest
  {
    hide BitsOf, BytesBits, LowHolds;
    curr := curr0;
    ghost var honest := 1 <= curr0 <= LONGEST_CODE && 1 <= x <= LONGEST_CODE && r.Pending() == Delta(curr0, x) + rest;
    while true
      invariant r.Valid()
      invariant |r.Pending()| <= |old(r.Pending())|
      invariant honest ==> 1 <= curr <= LONGEST_CODE && r.Pending() == Delta(curr, x) + rest
      decreases |r.Pending()|
    {
      if curr < 1 || curr > LONGEST_CODE { ok := false; return; }
      DeltaStep(curr, x, rest);
      var uc;
      ok, uc := GetBit(r);
      if !ok { return; }
      if !uc { break; }
      ok, uc := GetBit(r);
      if !ok { return; }
      if !uc { curr := curr + 1; } else { curr := curr - 1; }
    }
  }

  lemma DeltaStep(curr: nat, x: nat, rest: seq<bool>)
    requires curr >= 1
    ensures curr == x ==> (Delta(curr, x) + rest)[0] == false && (Delta(curr, x) + rest)[1..] == rest
    ensures curr != x ==> |Delta(curr, x) + rest| >= 2 && (Delta(curr, x) + rest)[0]
    ensures curr != x ==> (Delta(curr, x) + rest)[1..][0] == (curr > x)
    ensures curr != x ==>
              (Delta(curr, x) + rest)[1..][1..] == Delta(if curr < x then curr + 1 else curr - 1, x) + rest
  {
    var d := Delta(curr, x) + rest;
    if curr == x {
    } else {
      var c1: nat := if curr < x then curr + 1 else curr - 1;
      assert Delta(curr, x) == [true, curr > x] + Delta(c1, x);
      assert d == [true, curr > x] + (Delta(c1, x) + rest);
      assert d[1..][1..] == Delta(c1, x) + rest;
    }
  }

  method ReceiveTable(r: BitReader, alphaSize: nat, ghost x: seq<byte>, ghost rest: seq<bool>)
    returns (ok: bool, len: seq<byte>)
    requires r.Valid() && x != []
    modifies r
    ensures r.Valid() && (ok ==> |len| == alphaSize && LengthsIn(len, 1, LONGEST_CODE))
    ensures |r.Pending()| <= |old(r.Pending())|
    ensures |x| == alphaSize && LengthsIn(x, 1, LONGEST_CODE) && old(r.Pending()) == TableBits(x) + rest ==>
              ok && len == x && r.Pending() == rest
  {
    hide BitsOf, BytesBits, LowHolds, Pow2;
    ghost var honest := |x| == alphaSize && LengthsIn(x, 1, LONGEST_CODE) && r.Pending() == TableBits(x) + rest;
    FiveBits();
    len := [];
    Assoc(BitsOf(x[0], 5), Deltas(x, x[0], 0), rest);
    var curr: nat;
    ok, curr := GetNumber(r, 5, x[0], Deltas(x, x[0], 0) + rest);
    if !ok { return; }
    for i := 0 to alphaSize
      invariant r.Valid() && |len| == i && LengthsIn(len, 1, LONGEST_CODE)
      invariant |r.Pending()| <= |old(r.Pending())|
      invariant honest ==> 1 <= curr <= LONGEST_CODE && len == x[..i] && r.Pending() == Deltas(x, curr, i) + rest
    {
      ghost var target: nat, tail: seq<bool> := 0, [];
      if honest {
        target, tail := x[i], Deltas(x, x[i], i + 1) + rest;
        Assoc(Delta(curr, x[i]), Deltas(x, x[i], i + 1), rest);
      }
      ok, curr := ReceiveDelta(r, curr, target, tail);
      if !ok { return; }
      len := len + [curr];
    }
    if honest { assert Deltas(x, curr, alphaSize) + rest == rest; }
    ok := true;
  }

  ghost predicate LengthTables(lens: seq<seq<byte>>, alphaSize: nat) {
    forall t :: 0 <= t < |lens| ==> |lens[t]| == alphaSize && LengthsIn(lens[t], 1, LONGEST_CODE)
  }

  method ReceiveTables(r: BitReader, nGroups: nat, alphaSize: nat, ghost x: seq<seq<byte>>, ghost rest: seq<bool>)
    returns (ok: bool, lens: seq<seq<byte>>)
    requires r.Valid() && alphaSize > 0 && forall t :: 0 <= t < |x| ==> x[t] != []
    modifies r
    ensures r.Valid() && (ok ==> |lens| == nGroups && LengthTables(lens, alphaSize))
    ensures |r.Pending()| <= |old(r.Pending())|
    ensures |x| == nGroups && LengthTables(x, alphaSize) && old(r.Pending()) == TablesBits(x, 0) + rest ==>
              ok && lens == x && r.Pending() == rest
  {
    hide BitsOf, BytesBits, LowHolds, TableBits, LengthsIn;
    ghost var honest := |x| == nGroups && LengthTables(x, alphaSize) && r.Pending() == TablesBits(x, 0) + rest;
    lens := [];
    for t := 0 to nGroups
      invariant r.Valid() && |lens| == t && LengthTables(lens, alphaSize)
      invariant |r.Pending()| <= |old(r.Pending())|
      invariant honest ==> lens == x[..t] && r.Pending() == TablesBits(x, t) + rest
    {
      ghost var target, tail := [1], [];
      if honest {
        target, tail := x[t], TablesBits(x, t + 1) + rest;
        Assoc(TableBits(x[t]), TablesBits(x, t + 1), rest);
      }
      var len;
      ok, len := ReceiveTable(r, alphaSize, target, tail);
      if !ok { return; }
      lens := lens + [len];
    }
    if honest { assert TablesBits(x, nGroups) + rest == rest; }
    ok := true;
  }

  // ---- decoding tables ----

  ghost predicate TablesFor(tables: seq<DecodeTable>, lens: seq<seq<byte>>) {
    |tables| == |lens| && forall t :: 0 <= t < |lens| ==> TableFor(tables[t], lens[t])
  }

  method MakeTables(lens: seq<seq<byte>>, alphaSize: nat) returns (tables: seq<DecodeTable>)
    requires LengthTables(lens, alphaSize) && 0 < alphaSize <= MAX_ALPHABET
    ensures TablesFor(tables, lens)
  {
    hide Tables, LengthsIn, TableFor;
    tables := [];
    for t := 0 to |lens|
      invariant |tables| == t && forall k :: 0 <= k < t ==> TableFor(tables[k], lens[k])
    {
      var one := MakeTable(lens[t]);
      tables := tables + [one];
    }
  }

  method MakeTable(len: seq<byte>) returns (t: DecodeTable)
    requires 0 < |len| <= MAX_ALPHABET && LengthsIn(len, 1, LONGEST_CODE)
    ensures TableFor(t, len)
  {
    hide Tables;
    var minLen, maxLen := Extremes(len);
    var limit, base := new int[MAX_CODE_LEN], new int[MAX_CODE_LEN];
    var perm := new nat[MAX_ALPHABET];
    CreateDecodeTables(limit, base, perm, len, minLen, maxLen);
    t := DecodeTable(limit[..], base[..], perm[..|len|], minLen);
  }
}
