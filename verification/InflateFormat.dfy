/** What a run of Huffman coded literals and matches means: the decoding tables looked up one
    symbol at a time on the bit stream, and the text the symbols stand for
    (sections 3.2.3 and 3.2.5 of RFC 1951). */
module InflateFormat {
  import opened Powers
  import opened Rotations
  import opened LowBits
  import opened Lz77

  /** A cell of a decoding table.  op is 0 for a literal, 16 + extra for a length or distance,
      the number of index bits for a link to a second table, 96 for the end of the block, and
      64 for a code that stands for nothing. */
  datatype Entry = Entry(op: byte, bits: nat, val: nat)

  predicate HasBit(op: byte, b: nat)
    requires b > 0
  {
    (op / b) % 2 == 1
  }

  predicate IsBase(e: Entry) { HasBit(e.op, 16) }

  predicate IsLink(e: Entry) { 0 < e.op < 16 }

  const LONGEST: nat := 15
  const MAX_LENGTH: nat := 258
  const MAX_DISTANCE: nat := 32768

  function Cell(c: seq<Entry>, at: nat, i: nat): Entry {
    if at + i < |c| then c[at + i] else Entry(64, 1, 0)
  }

  /** One level of a table: a cell depends on no more index bits than its code has. */
  ghost predicate Level(c: seq<Entry>, at: nat, r: nat) {
    && at + Pow2(r) <= |c|
    && forall i: nat, j: nat ::
      i < Pow2(r) && j < Pow2(r) && Low(i, Cell(c, at, i).bits) == Low(j, Cell(c, at, i).bits) ==>
         Cell(c, at, j) == Cell(c, at, i)
  }

  function Span(n: nat): nat {
    Pow2(n)
  }

  predicate LengthFits(e: Entry) {
    || (e.op == 0 && e.val < 256)
    || (16 <= e.op <= 21 && 3 <= e.val && e.val + Span(e.op - 16) - 1 <= MAX_LENGTH)
    || e.op == 96 || e.op == 64
  }

  predicate DistanceFits(e: Entry) {
    || (16 <= e.op <= 29 && 1 <= e.val && e.val + Span(e.op - 16) - 1 <= MAX_DISTANCE)
    || e.op == 64
  }

  predicate Fits(e: Entry, lengths: bool) {
    if lengths then LengthFits(e) else DistanceFits(e)
  }

  /** A link leads to a full second level without links. */
  ghost predicate LinkFits(c: seq<Entry>, root: nat, e: Entry, lengths: bool)
    requires IsLink(e)
  {
    && e.bits == root && root + e.op <= LONGEST && Level(c, e.val, e.op)
    && forall k: nat :: k < Pow2(e.op) ==>
         1 <= Cell(c, e.val, k).bits <= e.op && Fits(Cell(c, e.val, k), lengths)
  }

  /** A two level decoding table for codes of up to fifteen bits. */
  ghost predicate Complete(c: seq<Entry>, root: nat, lengths: bool) {
    && 1 <= root <= LONGEST && Level(c, 0, root)
    && forall i: nat :: i < Pow2(root) ==> RootFits(c, root, Cell(c, 0, i), lengths)
  }

  ghost predicate RootFits(c: seq<Entry>, root: nat, e: Entry, lengths: bool) {
    if IsLink(e) then LinkFits(c, root, e, lengths) else 1 <= e.bits <= root && Fits(e, lengths)
  }

  function RootCell(c: seq<Entry>, root: nat, v: nat): Entry {
    Cell(c, 0, Low(v, root))
  }

  function LinkedCell(c: seq<Entry>, e: Entry, v: nat): Entry {
    Cell(c, e.val, Low(High(v, e.bits), e.op))
  }

  /** The cell the stream v leads to, and the bits its code takes. */
  function Symbol(c: seq<Entry>, root: nat, v: nat): (Entry, nat) {
    var e := RootCell(c, root, v);
    if IsLink(e) then
      var s := LinkedCell(c, e, v);
      (s, e.bits + s.bits)
    else (e, e.bits)
  }

  lemma SymbolFits(c: seq<Entry>, root: nat, v: nat, lengths: bool)
    requires Complete(c, root, lengths)
    ensures 1 <= Symbol(c, root, v).1 <= LONGEST && Fits(Symbol(c, root, v).0, lengths)
  {
    hide Pow2, Low, High, Level, Fits;
    var e := RootCell(c, root, v);
    assert RootFits(c, root, e, lengths);
  }

  /** The bits of a code settle it: the codes of a table are prefix free. */
  lemma SymbolIsLocal(c: seq<Entry>, root: nat, v: nat, w: nat, lengths: bool)
    requires Complete(c, root, lengths)
    requires var n := Symbol(c, root, v).1; Low(v, n) == Low(w, n)
    ensures Symbol(c, root, w) == Symbol(c, root, v)
  {
    hide Pow2, Low, High, Fits;
    var e := RootCell(c, root, v);
    assert RootFits(c, root, e, lengths);
    if IsLink(e) {
      var s := LinkedCell(c, e, v);
      var n := root + s.bits;
      Shorter(v, n, root);
      Shorter(w, n, root);
      Window(v, root, s.bits);
      Window(w, root, s.bits);
      Shorter(High(v, root), e.op, s.bits);
      Shorter(High(w, root), e.op, s.bits);
      assert LinkedCell(c, e, w) == s;
    } else {
      Shorter(v, root, e.bits);
      Shorter(w, root, e.bits);
      assert RootCell(c, root, w) == e;
    }
  }

  // ---- one literal, match or end of block ----

  datatype Tables = Tables(len: seq<Entry>, lenRoot: nat, dist: seq<Entry>, distRoot: nat)

  ghost predicate Usable(t: Tables) {
    BothComplete(t)
  }

  ghost predicate BothComplete(t: Tables) {
    Complete(t.len, t.lenRoot, true) && Complete(t.dist, t.distRoot, false)
  }

  datatype Item =
    | Found(token: Token, bits: nat)
    | BlockEnd(bits: nat)
    | NoLength
    | NoDistance

  /** The extra bits after a code of n bits, added to its base. */
  function Value(e: Entry, v: nat, n: nat): nat {
    e.val + Low(High(v, n), e.op % 16)
  }

  /** The distance after a length of len whose bits end at m. */
  function NextDistance(t: Tables, v: nat, m: nat, len: nat): Item {
    var (d, k) := Symbol(t.dist, t.distRoot, High(v, m));
    if IsBase(d) then Found(Match(Value(d, v, m + k), len), m + k + d.op % 16) else NoDistance
  }

  function Next(t: Tables, v: nat): Item {
    var (e, n) := Symbol(t.len, t.lenRoot, v);
    if e.op == 0 then Found(Literal(e.val % 256), n)
    else if IsBase(e) then NextDistance(t, v, n + e.op % 16, Value(e, v, n))
    else if HasBit(e.op, 32) then BlockEnd(n)
    else NoLength
  }

  lemma ValueFits(e: Entry, v: nat, n: nat, lengths: bool)
    requires Fits(e, lengths) && IsBase(e)
    ensures lengths ==> 3 <= Value(e, v, n) <= MAX_LENGTH && e.op % 16 <= 5
    ensures !lengths ==> 1 <= Value(e, v, n) <= MAX_DISTANCE && e.op % 16 <= 13
  {
    hide Pow2, High, Low;
    assert e.op % 16 == e.op - 16;
  }

  /** A match is 3 to 258 long, reaches 1 to 32768 back, and takes at most 48 bits. */
  lemma NextFits(t: Tables, v: nat)
    requires Usable(t) && Next(t, v).Found?
    ensures 1 <= Next(t, v).bits <= 48
    ensures Next(t, v).token.Match? ==>
              3 <= Next(t, v).token.len <= MAX_LENGTH && 1 <= Next(t, v).token.dist <= MAX_DISTANCE
  {
    hide Pow2, Low, High, Fits, Complete;
    var (e, n) := Symbol(t.len, t.lenRoot, v);
    SymbolFits(t.len, t.lenRoot, v, true);
    if e.op != 0 && IsBase(e) {
      ValueFits(e, v, n, true);
      var m := n + e.op % 16;
      var (d, k) := Symbol(t.dist, t.distRoot, High(v, m));
      SymbolFits(t.dist, t.distRoot, High(v, m), false);
      ValueFits(d, v, m + k, false);
    }
  }

  /** Streams that agree on their first n bits agree on any part of them. */
  lemma SamePart(v: nat, w: nat, n: nat, a: nat, b: nat)
    requires Low(v, n) == Low(w, n) && a + b <= n
    ensures Low(High(v, a), b) == Low(High(w, a), b)
  {
    hide Pow2, Low, High;
    Shorter(v, n, a + b);
    Shorter(w, n, a + b);
    Window(v, a, b);
    Window(w, a, b);
  }

  lemma DistanceComesLast(t: Tables, v: nat, m: nat, len: nat)
    requires NextDistance(t, v, m, len).Found?
    ensures NextDistance(t, v, m, len).bits >= m
  {
    hide Pow2, Low, High, Symbol;
    var (d, k) := Symbol(t.dist, t.distRoot, High(v, m));
    assert m + k + d.op % 16 >= m;
  }

  lemma NextDistanceIsLocal(t: Tables, v: nat, w: nat, m: nat, len: nat)
    requires Usable(t) && NextDistance(t, v, m, len).Found?
    requires var n := NextDistance(t, v, m, len).bits; Low(v, n) == Low(w, n)
    ensures NextDistance(t, w, m, len) == NextDistance(t, v, m, len)
  {
    hide Pow2, Low, High, Symbol, Complete;
    var (d, k) := Symbol(t.dist, t.distRoot, High(v, m));
    var n := m + k + d.op % 16;
    SamePart(v, w, n, m, k);
    SymbolIsLocal(t.dist, t.distRoot, High(v, m), High(w, m), false);
    SamePart(v, w, n, m + k, d.op % 16);
  }

  /** A symbol is settled by the bits it takes. */
  lemma NextIsLocal(t: Tables, v: nat, w: nat)
    requires Usable(t) && Next(t, v).Found?
    requires var n := Next(t, v).bits; Low(v, n) == Low(w, n)
    ensures Next(t, w) == Next(t, v)
  {
    hide Pow2, Low, High, Symbol, Complete, NextDistance;
    var (e, n) := Symbol(t.len, t.lenRoot, v);
    var all := Next(t, v).bits;
    if IsBase(e) {
      DistanceComesLast(t, v, n + e.op % 16, Value(e, v, n));
    }
    SamePart(v, w, all, 0, n);
    Nothing(v);
    Nothing(w);
    SymbolIsLocal(t.len, t.lenRoot, v, w, true);
    if e.op != 0 && IsBase(e) {
      SamePart(v, w, all, n, e.op % 16);
      NextDistanceIsLocal(t, v, w, n + e.op % 16, Value(e, v, n));
    }
  }

  // ---- runs of symbols ----

  /** The first n bits of v are exactly the symbols ts. */
  ghost predicate Reads(t: Tables, v: nat, ts: seq<Token>, n: nat)
    decreases |ts|
  {
    if ts == [] then n == 0 else
    match Next(t, v)
    case Found(s, k) => s == ts[0] && k <= n && Reads(t, High(v, k), ts[1..], n - k)
    case _ => false
  }

  lemma {:induction false} ReadsJoin(t: Tables, v: nat, ts: seq<Token>, n: nat, us: seq<Token>, m: nat)
    requires Reads(t, v, ts, n) && Reads(t, High(v, n), us, m)
    ensures Reads(t, v, ts + us, n + m)
    decreases |ts|
  {
    hide Pow2, Low, High, Next;
    if ts == [] {
      Nothing(v);
      assert ts + us == us;
    } else {
      var k := Next(t, v).bits;
      TwoSteps(v, k, n - k);
      ReadsJoin(t, High(v, k), ts[1..], n - k, us, m);
      assert (ts + us)[1..] == ts[1..] + us;
    }
  }

  lemma ReadsMore(t: Tables, v: nat, ts: seq<Token>, n: nat, s: Token, k: nat)
    requires Reads(t, v, ts, n) && Next(t, High(v, n)) == Found(s, k)
    ensures Reads(t, v, ts + [s], n + k)
  {
    hide Pow2, Low, High, Next;
    assert [s][1..] == [];
    assert Reads(t, High(v, n), [s], k);
    ReadsJoin(t, v, ts, n, [s], k);
  }

  /** Bits past the symbols do not matter. */
  lemma {:induction false} ReadsIsLocal(t: Tables, v: nat, w: nat, ts: seq<Token>, n: nat)
    requires Usable(t) && Reads(t, v, ts, n) && Low(v, n) == Low(w, n)
    ensures Reads(t, w, ts, n)
    decreases |ts|
  {
    hide Pow2, Low, High, Next, Usable;
    if ts != [] {
      var k := Next(t, v).bits;
      Shorter(v, n, k);
      Shorter(w, n, k);
      NextIsLocal(t, v, w);
      SamePart(v, w, n, k, n - k);
      ReadsIsLocal(t, High(v, k), High(w, k), ts[1..], n - k);
    }
  }

  /** Bits spell no more than one run of symbols. */
  lemma {:induction false} ReadsUnique(t: Tables, v: nat, ts: seq<Token>, us: seq<Token>, n: nat)
    requires Usable(t) && Reads(t, v, ts, n) && Reads(t, v, us, n)
    ensures ts == us
    decreases |ts|
  {
    hide Pow2, Low, High, Next, Usable;
    if Next(t, v).Found? { NextFits(t, v); }
    if ts != [] && us != [] {
      var k := Next(t, v).bits;
      ReadsUnique(t, High(v, k), ts[1..], us[1..], n - k);
    }
  }

  /** Where a run ends at no symbol of its kind, any other run from the same place is the
      beginning of it. */
  lemma {:induction false} ReadsPrefix(t: Tables, v: nat, ts: seq<Token>, n: nat, us: seq<Token>, m: nat)
    requires Usable(t) && Reads(t, v, ts, n) && !Next(t, High(v, n)).Found? && Reads(t, v, us, m)
    ensures |us| <= |ts| && us == ts[..|us|] && m <= n && (|us| == |ts| ==> m == n)
    ensures |us| < |ts| ==> Next(t, High(v, m)).Found? && Next(t, High(v, m)).token == ts[|us|]
                            && m + Next(t, High(v, m)).bits <= n
    decreases |us|
  {
    hide Pow2, Low, High, Next, Usable;
    Nothing(v);
    if us != [] {
      var k := Next(t, v).bits;
      TwoSteps(v, k, n - k);
      TwoSteps(v, k, m - k);
      ReadsPrefix(t, High(v, k), ts[1..], n - k, us[1..], m - k);
      assert us == [us[0]] + us[1..] && ts[..|us|] == [ts[0]] + ts[1..][..|us| - 1];
    }
  }

  /** So the symbols before the end of a block are settled, and so is where they end. */
  lemma BlockSettled(t: Tables, v: nat, ts: seq<Token>, n: nat, us: seq<Token>, m: nat)
    requires Usable(t) && Reads(t, v, ts, n) && Next(t, High(v, n)).BlockEnd?
    requires Reads(t, v, us, m) && !Next(t, High(v, m)).Found?
    ensures us == ts && m == n
  {
    hide Pow2, Low, High, Next, Usable, Reads;
    ReadsPrefix(t, v, ts, n, us, m);
  }

  // ---- the text ----

  /** The text after the symbols ts, which may copy from the text before them. */
  function Replay(text: seq<byte>, ts: seq<Token>): (r: seq<byte>)
    ensures |r| >= |text|
  {
    if ts == [] then text else Apply(Replay(text, ts[..|ts| - 1]), ts[|ts| - 1])
  }

  lemma ReplayNext(text: seq<byte>, ts: seq<Token>, s: Token)
    ensures Replay(text, ts + [s]) == Apply(Replay(text, ts), s)
  {
    assert (ts + [s])[..|ts|] == ts;
  }

  lemma {:induction false} ReplayJoin(text: seq<byte>, ts: seq<Token>, us: seq<Token>)
    ensures Replay(text, ts + us) == Replay(Replay(text, ts), us)
    decreases |us|
  {
    if us == [] {
      assert ts + us == ts;
    } else {
      var last := us[|us| - 1];
      ReplayJoin(text, ts, us[..|us| - 1]);
      assert ts + us == (ts + us[..|us| - 1]) + [last];
      ReplayNext(text, ts + us[..|us| - 1], last);
    }
  }

  /** Started on nothing, the decoder's text is what the compressor's tokens stand for. */
  lemma {:induction false} ReplayIsExpand(ts: seq<Token>)
    ensures Replay([], ts) == Expand(ts)
    decreases |ts|
  {
    if ts != [] { ReplayIsExpand(ts[..|ts| - 1]); }
  }

  // ---- distances ----

  function Least(a: nat, b: nat): nat { if a < b then a else b }

  /** Every match reaches back over text that is there and still kept. */
  ghost predicate Near(text: seq<byte>, reach: nat, ts: seq<Token>) {
    ts == [] ||
    var t, s := ts[..|ts| - 1], ts[|ts| - 1];
    Near(text, reach, t) && (s.Match? ==> 0 < s.dist <= Least(|Replay(text, t)|, reach))
  }

  lemma NearNext(text: seq<byte>, reach: nat, ts: seq<Token>, s: Token)
    ensures Near(text, reach, ts + [s]) <==>
              Near(text, reach, ts) && (s.Match? ==> 0 < s.dist <= Least(|Replay(text, ts)|, reach))
  {
    assert (ts + [s])[..|ts|] == ts;
  }

  lemma NearPrefix(text: seq<byte>, reach: nat, ts: seq<Token>, k: nat)
    requires Near(text, reach, ts) && k <= |ts|
    ensures Near(text, reach, ts[..k])
  {
    assert ts == ts[..k] + ts[k..];
    NearJoin(text, reach, ts[..k], ts[k..]);
  }

  lemma {:induction false} NearJoin(text: seq<byte>, reach: nat, ts: seq<Token>, us: seq<Token>)
    ensures Near(text, reach, ts + us) <==> Near(text, reach, ts) && Near(Replay(text, ts), reach, us)
    decreases |us|
  {
    if us == [] {
      assert ts + us == ts;
    } else {
      var t, last := us[..|us| - 1], us[|us| - 1];
      NearJoin(text, reach, ts, t);
      assert ts + us == (ts + t) + [last];
      NearNext(text, reach, ts + t, last);
      ReplayJoin(text, ts, t);
      assert us == t + [last];
      NearNext(Replay(text, ts), reach, t, last);
    }
  }

  /** The smallest tables there are: one bit for a literal or the end of the block, one for a distance. */
  function SmallestTables(c: byte): Tables {
    Tables([Entry(96, 1, 0), Entry(0, 1, c)], 1, [Entry(16, 1, 1), Entry(64, 1, 0)], 1)
  }

  lemma OneBit(i: nat)
    requires i < 2
    ensures Pow2(1) == 2 && Low(i, 1) == i
  {
    assert Pow2(1) == 2;
    Small(i, 1);
  }

  lemma TwoCells(c: seq<Entry>, lengths: bool)
    requires |c| == 2 && c[0].bits == 1 == c[1].bits
    requires !IsLink(c[0]) && !IsLink(c[1]) && Fits(c[0], lengths) && Fits(c[1], lengths)
    ensures Complete(c, 1, lengths)
  {
    hide Low, Fits;
    OneBit(0);
    hide Pow2;
    forall i: nat, j: nat | i < Pow2(1) && j < Pow2(1) && Low(i, Cell(c, 0, i).bits) == Low(j, Cell(c, 0, i).bits)
      ensures Cell(c, 0, j) == Cell(c, 0, i)
    {
      OneBit(i);
      OneBit(j);
    }
  }

  /** Usable tables, and a stream one of them decodes. */
  lemma SmallestTablesWork(c: byte)
    ensures Usable(SmallestTables(c)) && Reads(SmallestTables(c), 1, [Literal(c)], 1)
  {
    var t := SmallestTables(c);
    assert Span(0) == 1;
    TwoCells(t.len, true);
    TwoCells(t.dist, false);
    hide Pow2, Low, High;
    OneBit(1);
    assert Symbol(t.len, 1, 1) == (Entry(0, 1, c), 1);
    assert Next(t, 1) == Found(Literal(c), 1);
    assert [Literal(c)][1..] == [];
    assert Reads(t, High(1, 1), [], 0);
  }
}
