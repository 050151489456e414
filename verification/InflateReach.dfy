/** How far back the inflaters let a match reach.  One symbol at a time, it is to the beginning of
    the text and of what the window keeps; a fast stretch is more lenient, and this module says
    exactly when that makes a difference. */
module InflateReach {
  import opened Rotations
  import opened Powers
  import opened LowBits
  import opened Lz77
  import opened InflateFormat
  import opened InflateSymbols
  import opened BitReservoir
  import opened InflateBack
  import Fast = InflateFast

  lemma {:induction false} AllowedFirst(slack: nat, put: nat, ts: seq<Token>)
    requires Fast.Allowed(slack, put, ts) && ts != []
    ensures ts[0].Match? ==> ts[0].dist <= slack + put
    decreases |ts|
  {
    var t := ts[..|ts| - 1];
    if t == [] {
      assert Fast.Produced(t) == 0;
    } else {
      AllowedFirst(slack, put, t);
    }
  }

  /** A match that comes first in a stretch is accepted up to the slack beyond all written in the
      window, whatever the text holds, and refused past that. */
  lemma FirstMatch(t: Tables, v: nat, ts: seq<Token>, n: nat, mode: Fast.Mode, slack: nat, put: nat, put2: nat,
                   reach: nat, at0: nat, at: nat, w: nat)
    requires Usable(t) && Fast.Progress(t, v, ts, n, mode, reach, at0, at, w) && (mode == Fast.LEN ==> at0 < at)
    requires Stretched(slack, put, ts, put2) && Refused(t, v, n, mode, slack + put2)
    requires Next(t, v).Found? && Next(t, v).token.Match?
    ensures ts != [] <==> Next(t, v).token.dist <= slack + put
    ensures ts != [] ==> ts[0] == Next(t, v).token
  {
    hide Pow2, Low, High, Next, Usable;
    Nothing(v);
    if ts == [] {
      assert Fast.Produced(ts) == 0;
    } else {
      AllowedFirst(slack, put, ts);
    }
  }

  /** With the window nowhere larger than any distance can be, everything a stretch may accept is
      near exactly when it begins with an empty window, or with a full one of the largest size. */
  lemma TightExactly(st: BackState)
    requires st.Valid() && st.left >= MAX_LENGTH && st.window.Length <= MAX_DISTANCE
    ensures st.Tight() <==>
              forall ts :: Fast.Allowed(st.Slack(), st.put, ts) && st.put + Fast.Produced(ts) <= st.window.Length ==>
                Near(st.Text(), st.window.Length, ts)
  {
    var size, text, slack, put := st.window.Length, st.Text(), st.Slack(), st.put;
    var later := st.whave == size;
    if st.Tight() {
      forall ts | Fast.Allowed(slack, put, ts) && put + Fast.Produced(ts) <= size ensures Near(text, size, ts) {
        StretchIsNear(text, size, slack, put, ts, later);
      }
    } else if later {
      FarAfterLiteral(text, size, put);
    } else {
      FarAtOnce(text, size, put);
    }
  }

  lemma FarAtOnce(text: seq<byte>, size: nat, put: nat)
    requires 0 < put == |text| && put + MAX_LENGTH <= size <= MAX_DISTANCE
    ensures exists ts :: Fast.Allowed(put, put, ts) && put + Fast.Produced(ts) <= size && !Near(text, size, ts)
  {
    var s := Match(put + 1, 3);
    Fast.NothingAllowed(put, put);
    Fast.AllowedNext(put, put, [], s);
    NearNext(text, size, [], s);
    assert [] + [s] == [s];
    assert Fast.Allowed(put, put, [s]);
  }

  lemma FarAfterLiteral(text: seq<byte>, size: nat, put: nat)
    requires put + MAX_LENGTH <= size < MAX_DISTANCE
    ensures exists ts :: Fast.Allowed(size, put, ts) && put + Fast.Produced(ts) <= size && !Near(text, size, ts)
  {
    hide Near, Replay, Fast.Allowed, Fast.Produced;
    var l, s := Literal(0), Match(size + 1, 3);
    Fast.NothingAllowed(size, put);
    Fast.AllowedNext(size, put, [], l);
    assert [] + [l] == [l];
    Fast.AllowedNext(size, put, [l], s);
    NearNext(text, size, [l], s);
    assert Fast.Allowed(size, put, [l] + [s]);
  }

  // ---- an input that shows it ----

  /** Tables with a second level: the end of the block, a literal, and length three; one distance, two. */
  function LinkedTables(c: byte): Tables {
    Tables([Entry(96, 1, 0), Entry(1, 1, 2), Entry(0, 1, c), Entry(16, 1, 3)], 1, [Entry(16, 1, 2), Entry(64, 1, 0)], 1)
  }

  lemma LevelOfTwo(c: seq<Entry>, at: nat)
    requires at + 2 <= |c| && c[at].bits == 1 == c[at + 1].bits
    ensures Level(c, at, 1)
  {
    hide Low;
    OneBit(0);
    hide Pow2;
    forall i: nat, j: nat | i < Pow2(1) && j < Pow2(1) && Low(i, Cell(c, at, i).bits) == Low(j, Cell(c, at, i).bits)
      ensures Cell(c, at, j) == Cell(c, at, i)
    {
      OneBit(i);
      OneBit(j);
    }
  }

  /** The same codes in a table of one level, as it is built for codes of up to two bits: the end of
      the block has one bit, and its cell comes twice. */
  function FlatTables(c: byte): Tables {
    Tables([Entry(96, 1, 0), Entry(0, 2, c), Entry(96, 1, 0), Entry(16, 2, 3)], 2, [Entry(16, 1, 2), Entry(64, 1, 0)],
           1)
  }

  lemma TwoBits(i: nat)
    requires i < 4
    ensures Pow2(2) == 4 && Low(i, 2) == i && Low(i, 1) == if i == 0 || i == 2 then 0 else 1
  {
    SmallPowers();
    hide Pow2, Low;
    Small(i, 2);
    Split(i, 1, i / 2, i % 2);
  }

  lemma FlatTablesWork(c: byte)
    ensures Usable(FlatTables(c))
  {
    var t := FlatTables(c);
    assert Span(0) == 1;
    TwoCells(t.dist, false);
    FlatLevel(c);
    TwoBits(0);
    hide Pow2, Low, Level;
    assert Complete(t.len, 2, true);
  }

  lemma FlatLevel(c: byte)
    ensures Level(FlatTables(c).len, 0, 2)
  {
    var l := FlatTables(c).len;
    TwoBits(0);
    hide Pow2, Low;
    forall i: nat, j: nat | i < Pow2(2) && j < Pow2(2) && Low(i, Cell(l, 0, i).bits) == Low(j, Cell(l, 0, i).bits)
      ensures Cell(l, 0, j) == Cell(l, 0, i)
    {
      TwoBits(i);
      TwoBits(j);
    }
  }

  /** A table may have links. */
  lemma LinkedTablesWork(c: byte)
    ensures Usable(LinkedTables(c))
  {
    var t := LinkedTables(c);
    assert Span(0) == 1;
    LevelOfTwo(t.len, 0);
    LevelOfTwo(t.len, 2);
    OneBit(0);
    hide Pow2, Low, Level;
    assert LinkFits(t.len, 1, t.len[1], true);
    assert Complete(t.len, 1, true);
    TwoCells(t.dist, false);
  }

  lemma SmallPowers()
    ensures Pow2(0) == 1 && Pow2(1) == 2 && Pow2(2) == 4
  {
    assert Pow2(1) == 2;
  }

  lemma FarBits()
    ensures Low(13, 1) == 1 && High(13, 1) == 6 && Low(6, 1) == 0 && High(13, 2) == 3
    ensures Low(3, 1) == 1 && High(3, 1) == 1 && Low(1, 1) == 1 && High(3, 2) == 0
    ensures Low(0, 1) == 0 && Low(0, 0) == 0 && High(0, 0) == 0
  {
    SmallPowers();
    hide Pow2, Low, High;
    Split(13, 1, 6, 1);
    Split(6, 1, 3, 0);
    Split(13, 2, 3, 1);
    Split(3, 1, 1, 1);
    Split(1, 1, 0, 1);
    Split(3, 2, 0, 3);
    Split(0, 1, 0, 0);
    Split(0, 0, 0, 0);
  }

  /** The codes 1 0, for the literal, and 1 1 0, for the match. */
  lemma FarStream(c: byte)
    ensures Next(LinkedTables(c), 13) == Found(Literal(c), 2)
    ensures High(13, 2) == 3 && Next(LinkedTables(c), 3) == Found(Match(2, 3), 3)
  {
    hide Pow2, Low, High;
    FarBits();
    FarLiteral(c);
    FarMatch(c);
  }

  /** The same in the table of one level. */
  lemma FlatStream(c: byte)
    ensures Next(FlatTables(c), 13) == Found(Literal(c), 2)
    ensures High(13, 2) == 3 && Next(FlatTables(c), 3) == Found(Match(2, 3), 3)
  {
    FlatBits();
    hide Pow2, Low, High;
    FlatLiteral(c);
    FlatMatch(c);
  }

  lemma FlatBits()
    ensures Low(13, 2) == 1 && High(13, 2) == 3 && Low(3, 2) == 3 && High(3, 2) == 0 && Low(0, 1) == 0
  {
    SmallPowers();
    hide Pow2, Low, High;
    Split(13, 2, 3, 1);
    Split(3, 2, 0, 3);
    Split(0, 1, 0, 0);
  }

  lemma FlatLiteral(c: byte)
    requires Low(13, 2) == 1
    ensures Next(FlatTables(c), 13) == Found(Literal(c), 2)
  {
    hide Pow2, Low, High;
    assert Symbol(FlatTables(c).len, 2, 13) == (Entry(0, 2, c), 2);
  }

  lemma FlatMatch(c: byte)
    requires Low(3, 2) == 3 && High(3, 2) == 0 && Low(0, 1) == 0
    ensures Next(FlatTables(c), 3) == Found(Match(2, 3), 3)
  {
    hide Pow2, Low, High;
    var t := FlatTables(c);
    assert Symbol(t.len, 2, 3) == (Entry(16, 2, 3), 2);
    assert Symbol(t.dist, 1, 0) == (Entry(16, 1, 2), 1);
    PlainMatch(t, 3, Entry(16, 2, 3), 2, Entry(16, 1, 2), 1);
  }

  lemma FarLiteral(c: byte)
    requires Low(13, 1) == 1 && High(13, 1) == 6 && Low(6, 1) == 0
    ensures Next(LinkedTables(c), 13) == Found(Literal(c), 2)
  {
    hide Pow2, Low, High;
    assert Symbol(LinkedTables(c).len, 1, 13) == (Entry(0, 1, c), 2);
  }

  lemma FarMatch(c: byte)
    requires Low(3, 1) == 1 && High(3, 1) == 1 && Low(1, 1) == 1 && High(3, 2) == 0 && Low(0, 1) == 0
    ensures Next(LinkedTables(c), 3) == Found(Match(2, 3), 3)
  {
    hide Pow2, Low, High;
    var t := LinkedTables(c);
    assert Symbol(t.len, 1, 3) == (Entry(16, 1, 3), 2);
    assert Symbol(t.dist, 1, 0) == (Entry(16, 1, 2), 1);
    PlainMatch(t, 3, Entry(16, 1, 3), 2, Entry(16, 1, 2), 1);
  }

  /** A length and a distance without extra bits. */
  lemma PlainMatch(t: Tables, v: nat, e: Entry, n: nat, d: Entry, k: nat)
    requires Symbol(t.len, t.lenRoot, v) == (e, n) && e.op == 16 && Symbol(t.dist, t.distRoot, High(v, n)) == (d, k)
             && d.op == 16
    ensures Next(t, v) == Found(Match(d.val, e.val), n + k)
  {
    hide Pow2, Low, High, Symbol;
    Nothing(High(v, n));
    Nothing(High(v, n + k));
    assert e.op % 16 == 0 && n + 0 == n;
    assert HasBit(16, 16);
  }

  lemma {:induction false} OnlyZeros(n: nat)
    ensures Number(seq(n, _ => 0)) == 0
  {
    if n > 0 {
      assert seq(n, _ => 0 as byte)[1..] == seq(n - 1, _ => 0 as byte);
      OnlyZeros(n - 1);
    }
  }

  lemma ThirteenFirst(n: nat)
    ensures Remaining([13] + seq(n, _ => 0), 0) == 13
  {
    hide High;
    OnlyZeros(n);
    assert ([13] + seq(n, _ => 0 as byte))[1..] == seq(n, _ => 0 as byte);
    Nothing(13);
  }

  /** A literal taken by itself. */
  lemma LiteralKept(t: Tables, v: nat, c: byte, k: nat, d: Dealt, token: Token, at: nat, at2: nat, w2: nat, reach: nat,
                    text: seq<byte>, r: nat, now: seq<byte>)
    requires Next(t, v) == Found(Literal(c), k) && !d.Stuck?
    requires Right(t, v, d, token, at, at2, w2, reach) && StoredRight(d, token, text, r, now)
    ensures d.Kept? && at2 == at + k && w2 == High(v, k) && now == text + [c]
  {
    hide Next, High;
  }

  lemma NotYetNear(text: seq<byte>, size: nat, ts: seq<Token>)
    requires ts != [] && ts[0].Match? && ts[0].dist > |text|
    ensures !Near(text, size, ts)
  {
    if Near(text, size, ts) { NearPrefix(text, size, ts, 1); }
  }

  /** A fresh inflater given the byte 13 and zeros: one literal by itself, then a stretch that begins
      with a match of distance two.  It is read and written, with a text of one byte. */
  method FarAccepted(c: byte, windowSize: nat, zeros: nat)
    returns (st: BackState, src: Reservoir, mode: Fast.Mode, ghost ts: seq<Token>, ghost n: nat)
    requires MAX_LENGTH < windowSize <= MAX_DISTANCE && zeros >= 6
    ensures st.Valid() && src.Valid() && src.input == [13] + seq(zeros, _ => 0) && st.window.Length == windowSize
    ensures Fast.Progress(FlatTables(c), 13, [Literal(c)] + ts, 2 + n, mode, st.Reach(), 0, src.At(), src.Ahead())
    ensures Reads(FlatTables(c), 13, [Literal(c)] + ts, 2 + n) && st.put == 1 + Fast.Produced(ts)
    ensures ts != [] && ts[0] == Match(2, 3) && !Near([c], windowSize, ts)
  {
    ghost var v, w := 13, 3;
    hide Usable, Next, Low, High, Pow2, Number, Remaining, FlatTables, Right, StoredRight, Near, Refused, NearIf;
    hide Fast.Progress, Grew, Tells, Fast.Allowed, Fast.Produced, Reads, Reservoir.Valid, Reservoir.At, Reservoir.Ahead;
    FlatTablesWork(c);
    FlatStream(c);
    ThirteenFirst(zeros);
    var t := FlatTables(c);
    var window := new byte[windowSize];
    st := new BackState(window);
    src := new Reservoir([13] + seq(zeros, _ => 0));
    src.AtIs();
    ghost var reach := st.Reach();
    var d;
    ghost var token;
    d, token := Step(st, src, t, false, v);
    ghost var at1, w1, r1 := src.At(), src.Ahead(), st.Reach();
    LiteralKept(t, v, c, 2, d, token, 0, at1, w1, r1, [], reach, st.Text());
    FirstProgress(t, v, c, 2, d, token, at1, w1, r1);
    src.AtIs();
    ghost var slack, tight, put := st.Slack(), st.Tight(), st.put;
    mode, ts, n := Hurry(st, src, t, w, [c], slack, tight);
    FirstMatch(t, w, ts, n, mode, slack, put, st.put, st.Reach(), at1, src.At(), src.Ahead());
    NotYetNear([c], windowSize, ts);
    Fast.ProgressJoin(t, v, [Literal(c)], 2, r1, 0, at1, w1, ts, n, mode, st.Reach(), src.At(), src.Ahead());
    ProgressReads(t, v, [Literal(c)] + ts, 2 + n, mode, st.Reach(), 0, src.At(), src.Ahead());
  }

  lemma FirstProgress(t: Tables, v: nat, c: byte, k: nat, d: Dealt, token: Token, at2: nat, w2: nat, r2: nat)
    requires Next(t, v) == Found(Literal(c), k) && d.Kept? && Right(t, v, d, token, 0, at2, w2, r2)
    ensures Fast.Progress(t, v, [Literal(c)], k, Fast.LEN, r2, 0, at2, w2)
  {
    hide Fast.Progress, Next, Low, High, Pow2;
    Fast.ProgressStarts(t, v, 0, 0);
    DealtProgress(t, v, [], 0, 0, 0, 0, v, r2, d, token, at2, w2);
    assert [] + [token] == [Literal(c)];
  }

  lemma ProgressReads(t: Tables, v: nat, ts: seq<Token>, n: nat, mode: Fast.Mode, reach: nat, at0: nat, at: nat, w: nat)
    requires Fast.Progress(t, v, ts, n, mode, reach, at0, at, w)
    ensures Reads(t, v, ts, n)
  {
  }
}
