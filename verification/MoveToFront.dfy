/** The second stage as values: move-to-front ranks, zero runs written in bijective base 2,
    and the decoder's automaton that undoes both. */
module MoveToFront {
  import opened Rotations

  const RUNA: nat := 0
  const RUNB: nat := 1

  // ---- the list ----

  /** Position of c in the list. */
  function IndexOf(yy: seq<byte>, c: byte): (j: nat)
    requires c in yy
    ensures j < |yy| && yy[j] == c
    ensures forall k :: 0 <= k < j ==> yy[k] != c
  {
    if yy[0] == c then 0 else 1 + IndexOf(yy[1..], c)
  }

  /** The list with entry j moved to the front. */
  function ToFront(yy: seq<byte>, j: nat): (r: seq<byte>)
    requires j < |yy|
    ensures |r| == |yy| && r[0] == yy[j]
  {
    [yy[j]] + yy[..j] + yy[j + 1..]
  }

  lemma ToFrontEntries(yy: seq<byte>, j: nat, k: nat)
    requires j < |yy| && k < |yy|
    ensures ToFront(yy, j)[k] == if k == 0 then yy[j] else if k <= j then yy[k - 1] else yy[k]
  {
  }

  lemma ToFrontZero(yy: seq<byte>)
    requires |yy| > 0
    ensures ToFront(yy, 0) == yy
  {
  }

  lemma ToFrontKeepsMembers(yy: seq<byte>, j: nat, c: byte)
    requires j < |yy| && c in yy
    ensures c in ToFront(yy, j)
  {
    var k := IndexOf(yy, c);
    if k < j { ToFrontEntries(yy, j, k + 1); }
    else if k == j { ToFrontEntries(yy, j, 0); } else { ToFrontEntries(yy, j, k); }
  }

  /** The first n byte values in order. */
  function Initial(n: nat): (yy: seq<byte>)
    requires n <= 256
    ensures |yy| == n && forall i :: 0 <= i < n ==> yy[i] == i
  {
    seq(n, i requires 0 <= i < n => i)
  }

  ghost predicate AllBelow(s: seq<byte>, n: nat) {
    forall i :: 0 <= i < |s| ==> s[i] < n
  }

  /** The list after the first k bytes of s have each been moved to the front. */
  function ListAfter(n: nat, s: seq<byte>, k: nat): (yy: seq<byte>)
    requires n <= 256 && k <= |s| && AllBelow(s, n)
    ensures |yy| == n && forall c: byte :: c < n ==> c in yy
  {
    if k == 0 then
      var yy := Initial(n);
      assert forall c: byte :: c < n ==> c in yy by { forall c: byte | c < n ensures c in yy { assert yy[c] == c; } }
      yy
    else
      var yy := ListAfter(n, s, k - 1);
      var j := IndexOf(yy, s[k - 1]);
      assert forall c: byte :: c < n ==> c in ToFront(yy, j) by {
        forall c: byte | c < n ensures c in ToFront(yy, j) { ToFrontKeepsMembers(yy, j, c); }
      }
      ToFront(yy, j)
  }

  /** The rank of byte k: its position in the list at that time. */
  function RankOf(n: nat, s: seq<byte>, k: nat): (r: nat)
    requires n <= 256 && k < |s| && AllBelow(s, n)
    ensures r < n
  {
    IndexOf(ListAfter(n, s, k), s[k])
  }

  // ---- runs of rank zero ----

  /** What digits stand for: the symbol and one, times ever higher powers of two. */
  function RunValue(digits: seq<nat>): nat {
    if digits == [] then 0 else digits[0] + 1 + 2 * RunValue(digits[1..])
  }

  lemma {:induction false} RunDigitsValue(z: nat)
    ensures RunValue(RunDigits(z)) == z
  {
    hide *;
    if z > 0 {
      DigitAndRest(z);
      FirstDigit(z);
      RunDigitsValue((z - 1) / 2);
      RunValueNext(if z % 2 == 1 then RUNA else RUNB, RunDigits((z - 1) / 2));
    } else {
      NoDigits(z);
      RunValueNone();
    }
  }

  lemma DigitAndRest(z: nat)
    requires z > 0
    ensures z == (if z % 2 == 1 then RUNA else RUNB) + 1 + 2 * ((z - 1) / 2)
  {
  }

  lemma RunValueNone()
    ensures RunValue([]) == 0
  {
  }

  lemma RunValueNext(x: nat, rest: seq<nat>)
    ensures RunValue([x] + rest) == x + 1 + 2 * RunValue(rest)
  {
    assert ([x] + rest)[1..] == rest;
  }

  /** z in bijective base 2, low digit first, with digits RUNA = 1 and RUNB = 2. */
  function RunDigits(z: nat): (d: seq<nat>)
    ensures |d| <= z
  {
    if z == 0 then [] else [if z % 2 == 1 then RUNA else RUNB] + RunDigits((z - 1) / 2)
  }

  lemma {:induction false} RunDigitsSmall(z: nat, i: nat)
    requires i < |RunDigits(z)|
    ensures RunDigits(z)[i] <= 1
    decreases z
  {
    if i > 0 { RunDigitsSmall((z - 1) / 2, i - 1); }
  }

  // ---- the encoder ----

  /** What the encoder has written after k bytes, and the zeros it still holds back. */
  datatype Written = Written(syms: seq<nat>, zPend: nat)

  function Encode(n: nat, s: seq<byte>, k: nat): (w: Written)
    requires n <= 256 && k <= |s| && AllBelow(s, n)
    ensures |w.syms| + w.zPend <= k && w.zPend <= k
  {
    if k == 0 then Written([], 0)
    else
      var w := Encode(n, s, k - 1);
      var r := RankOf(n, s, k - 1);
      if r == 0 then Written(w.syms, w.zPend + 1)
      else Written(w.syms + RunDigits(w.zPend) + [r + 1], 0)
  }

  function EndOfBlock(n: nat): nat { n + 1 }

  /** The symbols of a whole column, end mark included. */
  function Symbols(n: nat, s: seq<byte>): (r: seq<nat>)
    requires n <= 256 && AllBelow(s, n)
    ensures 0 < |r| <= |s| + 1
  {
    var w := Encode(n, s, |s|);
    w.syms + RunDigits(w.zPend) + [EndOfBlock(n)]
  }

  /** Every symbol but the last is a run digit or a rank; only the last is the end mark. */
  ghost predicate Legal(n: nat, syms: seq<nat>) {
    forall i :: 0 <= i < |syms| ==> syms[i] <= n
  }

  lemma {:induction false} EncodeLegal(n: nat, s: seq<byte>, k: nat)
    requires 0 < n <= 256 && k <= |s| && AllBelow(s, n)
    ensures Legal(n, Encode(n, s, k).syms)
  {
    hide RankOf, RunDigits;
    if k > 0 {
      EncodeLegal(n, s, k - 1);
      var z := Encode(n, s, k - 1).zPend;
      forall i | 0 <= i < |RunDigits(z)| ensures RunDigits(z)[i] <= n { RunDigitsSmall(z, i); }
    }
  }

  // ---- the decoder ----

  /** The decoder between two symbols: the bytes out so far, the list, and the run being
      read (its value and the weight of the next digit). */
  datatype Decoding = Decoding(out: seq<byte>, yy: seq<byte>, run: nat, weight: nat) | Rejected

  function Repeat(c: byte, k: nat): (r: seq<byte>)
    ensures |r| == k && forall i :: 0 <= i < k ==> r[i] == c
  {
    seq(k, _ => c)
  }

  const MAX_WEIGHT: nat := 2 * 1024 * 1024

  /** One run digit; a weight past the bound is an error. */
  function TakeDigit(d: Decoding, sym: nat): Decoding
    requires d.Decoding? && sym <= 1
  {
    if d.weight >= MAX_WEIGHT then Rejected
    else Decoding(d.out, d.yy, d.run + (if sym == RUNA then d.weight else 2 * d.weight), 2 * d.weight)
  }

  /** The run that has just ended is written out; more than limit bytes is an error. */
  function EndRun(d: Decoding, limit: nat): Decoding
    requires d.Decoding?
  {
    if d.run == 0 then Decoding(d.out, d.yy, 0, 1)
    else if |d.yy| == 0 || |d.out| + d.run > limit then Rejected
    else Decoding(d.out + Repeat(d.yy[0], d.run), d.yy, 0, 1)
  }

  /** One rank symbol: entry sym - 1 of the list comes out and moves to the front. */
  function TakeRank(d: Decoding, sym: nat, limit: nat): Decoding
    requires d.Decoding? && sym >= 1
  {
    if |d.out| >= limit || sym - 1 >= |d.yy| then Rejected
    else Decoding(d.out + [d.yy[sym - 1]], ToFront(d.yy, sym - 1), 0, 1)
  }

  function Step(d: Decoding, sym: nat, limit: nat): Decoding {
    if d.Rejected? then d
    else if sym <= 1 then TakeDigit(d, sym)
    else
      var e := EndRun(d, limit);
      if e.Rejected? then e else TakeRank(e, sym, limit)
  }

  /** The decoder after the first k symbols. */
  function Decode(n: nat, syms: seq<nat>, limit: nat, k: nat): Decoding
    requires n <= 256 && k <= |syms|
  {
    if k == 0 then Decoding([], Initial(n), 0, 1) else Step(Decode(n, syms, limit, k - 1), syms[k - 1], limit)
  }

  // ---- round trip ----

  /** The list does not move while ranks are zero, so held back zeros need no list of their
      own; the decoder that has read the symbols written so far is at the byte where the
      held back zeros begin. */
  ghost predicate InStep(n: nat, s: seq<byte>, k: nat, d: Decoding)
    requires n <= 256 && k <= |s| && AllBelow(s, n)
  {
    var w := Encode(n, s, k);
    && d == Decoding(s[..k - w.zPend], ListAfter(n, s, k), 0, 1)
    && forall i :: k - w.zPend <= i < k ==> n > 0 && s[i] == ListAfter(n, s, k)[0]
  }

  lemma DecodeDigit(n: nat, syms: seq<nat>, limit: nat, k: nat)
    requires n <= 256 && k < |syms| && syms[k] <= 1 && Decode(n, syms, limit, k).Decoding?
    ensures Decode(n, syms, limit, k + 1) == TakeDigit(Decode(n, syms, limit, k), syms[k])
  {
    hide TakeDigit, Initial;
  }

  lemma FirstDigit(z: nat)
    requires z > 0
    ensures RunDigits(z) == [if z % 2 == 1 then RUNA else RUNB] + RunDigits((z - 1) / 2)
  {
  }

  lemma NoDigits(z: nat)
    requires z == 0
    ensures RunDigits(z) == []
  {
  }

  /** Reading the digits of z on top of a run adds z times the current weight. */
  lemma {:induction false} DigitsRead(n: nat, syms: seq<nat>, limit: nat, k: nat, z: nat, digits: seq<nat>)
    requires n <= 256 && digits == RunDigits(z)
    requires k + |digits| <= |syms| && syms[k..k + |digits|] == digits
    requires Decode(n, syms, limit, k).Decoding?
    requires Times(Decode(n, syms, limit, k).weight, z + 1) <= MAX_WEIGHT
    ensures var d, e := Decode(n, syms, limit, k), Decode(n, syms, limit, k + |digits|);
            && e.Decoding? && e.out == d.out && e.yy == d.yy && e.run == d.run + Times(d.weight, z)
    decreases z
  {
    hide Initial, Step, Decode, Times, MAX_WEIGHT, RunDigits;
    var d := Decode(n, syms, limit, k);
    if z > 0 {
      var rest := (z - 1) / 2;
      FirstDigit(z);
      assert syms[k] == syms[k..k + |digits|][0] == digits[0];
      assert syms[k + 1..k + 1 + |digits[1..]|] == digits[1..];
      DigitArithmetic(d.weight, z, rest, digits[0]);
      DecodeDigit(n, syms, limit, k);
      DigitsRead(n, syms, limit, k + 1, rest, digits[1..]);
    } else {
      NoDigits(z);
      TimesZero(d.weight, z);
    }
  }

  function Times(a: nat, b: nat): nat { a * b }

  lemma TimesZero(w: nat, z: nat)
    requires z == 0
    ensures Times(w, z) == 0
  {
  }

  lemma DigitArithmetic(w: nat, z: nat, rest: nat, digit: nat)
    requires z == 2 * rest + digit + 1 && digit <= 1 && Times(w, z + 1) <= MAX_WEIGHT
    ensures w < MAX_WEIGHT
    ensures Times(2 * w, rest + 1) <= MAX_WEIGHT
    ensures (if digit == 0 then w else 2 * w) + Times(2 * w, rest) == Times(w, z)
  {
    assert z + 1 == 2 * (rest + 1) + digit;
    assert w * (z + 1) == w * (2 * (rest + 1)) + w * digit;
    assert w * (2 * (rest + 1)) == 2 * w * (rest + 1);
    assert w * (2 * (rest + 1)) == 2 * w + w * (2 * rest);
    assert (2 * w) * rest == w * (2 * rest) && w * z == w * (2 * rest) + w * (digit + 1);
  }

  /** Symbols read are symbols written: decoding a longer sequence starts the same way. */
  lemma {:induction false} DecodePrefix(n: nat, syms: seq<nat>, more: seq<nat>, limit: nat, k: nat)
    requires n <= 256 && k <= |syms|
    ensures Decode(n, syms + more, limit, k) == Decode(n, syms, limit, k)
  {
    hide Step, Initial;
    if k > 0 {
      DecodePrefix(n, syms, more, limit, k - 1);
    }
  }

  /** Reading a run held back by the encoder reaches the byte the encoder is at. */
  lemma ReadRun(n: nat, s: seq<byte>, k: nat, syms: seq<nat>, limit: nat)
    requires n <= 256 && k <= |s| <= limit <= 900000 && AllBelow(s, n)
    requires var w := Encode(n, s, k); w.syms <= syms && syms[|w.syms|..] == RunDigits(w.zPend)
    requires InStep(n, s, k, Decode(n, syms, limit, |Encode(n, s, k).syms|))
    ensures Decode(n, syms, limit, |syms|).Decoding?
    ensures EndRun(Decode(n, syms, limit, |syms|), limit) == Decoding(s[..k], ListAfter(n, s, k), 0, 1)
  {
    hide Step, Encode, ListAfter;
    var w := Encode(n, s, k);
    var m, z := |w.syms|, w.zPend;
    var digits := RunDigits(z);
    assert syms[m..m + |digits|] == syms[m..];
    DigitsRead(n, syms, limit, m, z, digits);
    var e := Decode(n, syms, limit, |syms|);
    assert e.run == z && e.out == s[..k - z];
    if z > 0 {
      assert s[k - z] < n;
      assert s[k - z] == ListAfter(n, s, k)[0];
      assert s[..k] == s[..k - z] + Repeat(e.yy[0], z);
    }
  }

  /** The decoder keeps in step with the encoder. */
  lemma {:induction false} DecodeInStep(n: nat, s: seq<byte>, k: nat, limit: nat)
    requires n <= 256 && k <= |s| <= limit <= 900000 && AllBelow(s, n)
    ensures InStep(n, s, k, Decode(n, Encode(n, s, k).syms, limit, |Encode(n, s, k).syms|))
  {
    hide Step, RankOf, ListAfter, Decode, InStep;
    if k > 0 {
      DecodeInStep(n, s, k - 1, limit);
      var w := Encode(n, s, k - 1);
      if RankOf(n, s, k - 1) == 0 {
        ZeroInStep(n, s, k - 1, Decode(n, w.syms, limit, |w.syms|));
      } else {
        RankDecoded(n, s, k - 1, w.syms + RunDigits(w.zPend), limit);
        NoneHeldBack(n, s, k);
      }
    } else {
      StartInStep(n, s, limit);
    }
  }

  lemma StartInStep(n: nat, s: seq<byte>, limit: nat)
    requires n <= 256 && AllBelow(s, n)
    ensures InStep(n, s, 0, Decode(n, Encode(n, s, 0).syms, limit, 0))
  {
    hide Initial;
  }

  /** A byte of rank zero changes neither the list nor what has been decoded. */
  lemma ZeroInStep(n: nat, s: seq<byte>, k: nat, d: Decoding)
    requires n <= 256 && k < |s| && AllBelow(s, n) && RankOf(n, s, k) == 0 && InStep(n, s, k, d)
    ensures InStep(n, s, k + 1, d)
  {
    ToFrontZero(ListAfter(n, s, k));
  }

  lemma NoneHeldBack(n: nat, s: seq<byte>, k: nat)
    requires n <= 256 && 0 < k <= |s| && AllBelow(s, n) && RankOf(n, s, k - 1) > 0
    ensures InStep(n, s, k, Decoding(s[..k], ListAfter(n, s, k), 0, 1))
  {
    hide ListAfter, RankOf;
  }

  lemma DecodeLast(n: nat, syms: seq<nat>, sym: nat, limit: nat)
    requires n <= 256
    ensures Decode(n, syms + [sym], limit, |syms| + 1) == Step(Decode(n, syms, limit, |syms|), sym, limit)
  {
    hide Step, Initial;
    DecodePrefix(n, syms, [sym], limit, |syms|);
  }

  lemma RankDecoded(n: nat, s: seq<byte>, k: nat, run: seq<nat>, limit: nat)
    requires n <= 256 && k < |s| <= limit <= 900000 && AllBelow(s, n) && RankOf(n, s, k) > 0
    requires var w := Encode(n, s, k);
             && run == w.syms + RunDigits(w.zPend)
             && InStep(n, s, k, Decode(n, w.syms, limit, |w.syms|))
    ensures var syms := run + [RankOf(n, s, k) + 1];
            Decode(n, syms, limit, |syms|) == Decoding(s[..k + 1], ListAfter(n, s, k + 1), 0, 1)
  {
    hide TakeDigit, EndRun, IndexOf, Encode, InStep, MAX_WEIGHT, Initial, RunDigits, Decode;
    var w := Encode(n, s, k);
    var r := RankOf(n, s, k);
    DecodePrefix(n, w.syms, RunDigits(w.zPend), limit, |w.syms|);
    ReadRun(n, s, k, run, limit);
    DecodePrefix(n, run, [r + 1], limit, |run|);
    var syms := run + [r + 1];
    DecodeLast(n, run, r + 1, limit);
    assert s[..k + 1] == s[..k] + [s[k]];
  }

  /** Decoding undoes encoding on every column of at most limit bytes, runs and all; no run
      is rejected by the bound on digit weights. */
  lemma RoundTrip(n: nat, s: seq<byte>, limit: nat)
    requires n <= 256 && |s| <= limit <= 900000 && AllBelow(s, n)
    ensures var syms := Symbols(n, s);
            var d := Decode(n, syms, limit, |syms| - 1);
            d.Decoding? && EndRun(d, limit) == Decoding(s, ListAfter(n, s, |s|), 0, 1)
  {
    hide Step, Encode, InStep, EndRun, ListAfter;
    var k := |s|;
    DecodeInStep(n, s, k, limit);
    var w := Encode(n, s, k);
    var run := w.syms + RunDigits(w.zPend);
    DecodePrefix(n, w.syms, RunDigits(w.zPend), limit, |w.syms|);
    ReadRun(n, s, k, run, limit);
    DecodePrefix(n, run, [EndOfBlock(n)], limit, |run|);
    assert s[..k] == s;
  }
}
