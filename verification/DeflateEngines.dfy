/** The four compressors over one window: fast, lazy, runs only, literals only.  Whatever is
    called in what order, the tokens recorded stand for the input passed so far. */
module DeflateEngines {
  import opened Rotations
  import opened DeflateHash
  import opened DeflateChains
  import opened DeflateWindow
  import opened DeflateMatch
  import opened Lz77

  const TOO_FAR: nat := 4096

  // ---- recording tokens ----

  /** The tokens held in the two buffers: distance zero marks a literal. */
  function Recorded(l: seq<byte>, d: seq<nat>): (ts: seq<Token>)
    requires |l| == |d|
    ensures |ts| == |l|
  {
    seq(|l|, i requires 0 <= i < |l| => if d[i] == 0 then Literal(l[i]) else Match(d[i], l[i] as nat + MIN_MATCH))
  }

  lemma RecordedNext(l: seq<byte>, d: seq<nat>, l1: seq<byte>, d1: seq<nat>, n: nat)
    requires n < |l| == |d| == |l1| == |d1| && l1[..n] == l[..n] && d1[..n] == d[..n]
    ensures Recorded(l1[..n + 1], d1[..n + 1]) ==
              Recorded(l[..n], d[..n]) + [if d1[n] == 0 then Literal(l1[n]) else Match(d1[n], l1[n] as nat + MIN_MATCH)]
  {
    assert l1[..n + 1] == l[..n] + [l1[n]] && d1[..n + 1] == d[..n] + [d1[n]];
  }

  /** What f says of the numbers from a up to c. */
  ghost function Answers(f: nat -> bool, a: nat, c: nat): (r: seq<bool>)
    decreases c
  {
    if a < c then Answers(f, a, c - 1) + [f(c - 1)] else []
  }

  class TokenBuffer {
    const litBufsize: nat
    const lBuf: array<byte>
    const dBuf: array<nat>
    /** whether the caller's output buffer will be full after so many blocks: for the caller to know */
    const fullAfter: nat -> bool
    var lastLit: nat
    /** blocks handed on, in all calls and before the present one */
    var blocks: nat
    ghost var earlier: nat
    /** the tokens of finished blocks */
    ghost var flushed: seq<Token>

    ghost predicate Valid()
      reads this, lBuf, dBuf
    {
      && litBufsize >= 2 && lBuf as object != dBuf && lBuf.Length == litBufsize == dBuf.Length && lastLit < litBufsize
      && earlier <= blocks
      && forall i :: 0 <= i < dBuf.Length ==> dBuf[i] < 0x1_0000
    }

    /** All tokens so far. */
    ghost function Tokens(): seq<Token>
      reads this, lBuf, dBuf
      requires Valid()
    {
      flushed + Recorded(lBuf[..lastLit], dBuf[..lastLit])
    }

    /** For every block handed on during this call, whether the output was full then. */
    ghost function Reports(): (r: seq<bool>)
      reads `blocks, `earlier
    {
      Answers(fullAfter, earlier, blocks)
    }

    constructor (litBufsize: nat, fullAfter: nat -> bool)
      requires litBufsize >= 2
      ensures Valid() && Tokens() == [] && lastLit == 0 && flushed == [] && this.litBufsize == litBufsize
      ensures Reports() == [] && this.fullAfter == fullAfter
      ensures fresh(lBuf) && fresh(dBuf)
    {
      this.litBufsize := litBufsize;
      lBuf, dBuf := new byte[litBufsize], new nat[litBufsize](_ => 0);
      lastLit := 0;
      flushed := [];
      this.fullAfter := fullAfter;
      blocks, earlier := 0, 0;
    }

    /** Records a literal; says whether the buffers are full. */
    method TallyLit(c: byte) returns (full: bool)
      requires Valid() && lastLit < litBufsize - 1
      modifies this`lastLit, lBuf, dBuf
      ensures Valid() && Tokens() == old(Tokens()) + [Literal(c)] && full == (lastLit == litBufsize - 1)
    {
      ghost var l, d := lBuf[..], dBuf[..];
      dBuf[lastLit] := 0;
      lBuf[lastLit] := c;
      RecordedNext(l, d, lBuf[..], dBuf[..], lastLit);
      lastLit := lastLit + 1;
      full := lastLit == litBufsize - 1;
    }

    /** Records a match; distance and length fit the sixteen and eight bits they are kept in. */
    method TallyDist(dist: nat, len: nat) returns (full: bool)
      requires Valid() && lastLit < litBufsize - 1
      requires 0 < dist < 0x1_0000 && MIN_MATCH <= len <= MAX_MATCH
      modifies this`lastLit, lBuf, dBuf
      ensures Valid() && Tokens() == old(Tokens()) + [Match(dist, len)] && full == (lastLit == litBufsize - 1)
    {
      ghost var l, d := lBuf[..], dBuf[..];
      dBuf[lastLit] := dist;
      lBuf[lastLit] := len - MIN_MATCH;
      RecordedNext(l, d, lBuf[..], dBuf[..], lastLit);
      lastLit := lastLit + 1;
      full := lastLit == litBufsize - 1;
    }

    /** The block is handed on, and the buffers start again. */
    method Restart()
      requires Valid()
      modifies this`lastLit, this`flushed
      ensures Valid() && lastLit == 0 && Tokens() == old(Tokens()) == flushed
    {
      flushed := flushed + Recorded(lBuf[..lastLit], dBuf[..lastLit]);
      lastLit := 0;
      assert Recorded(lBuf[..lastLit], dBuf[..lastLit]) == [];
    }
  }

  // ---- soundness ----

  /** BlockFlush is a partial, sync or block flush: for the window they are the same. */
  datatype FlushMode = NoFlush | BlockFlush | FullFlush | Finish
  datatype BlockState = NeedMore | BlockDone | FinishStarted | FinishDone

  /** The token buffers are no part of the window's tables. */
  ghost predicate Separate(s: DeflateState, tb: TokenBuffer) {
    && tb.lBuf != s.window && tb.dBuf != s.head && tb.dBuf != s.prev && tb.dBuf as object != s.window
    && tb.lBuf as object != s.head && tb.lBuf as object != s.prev && tb.lBuf as object != tb.dBuf
  }

  /** How far back a match may reach: less than the window by a margin. */
  function Reach(s: DeflateState): nat {
    if s.wSize > MIN_LOOKAHEAD then s.wSize - MIN_LOOKAHEAD else 0
  }

  /** The tokens stand for the input up to pend places before the current position, and none of
      them reaches back further than the window allows. */
  ghost predicate Sound(s: DeflateState, tb: TokenBuffer, pend: nat)
    reads s`data, s`base, s`strstart, tb, tb.lBuf, tb.dBuf
  {
    && tb.Valid() && pend <= s.Cur() <= |s.data| && Expand(tb.Tokens()) == s.data[..s.Cur() - pend]
    && Within(tb.Tokens(), Reach(s))
  }

  /** The block being collected begins where the finished ones end. */
  ghost predicate Blocked(s: DeflateState, tb: TokenBuffer)
    reads s`base, s`blockStart, tb`flushed
  {
    s.base + s.blockStart == |Expand(tb.flushed)|
  }

  /** Input that has been taken since is in order. */
  ghost predicate Took(data0: seq<byte>, available0: seq<byte>, data: seq<byte>, available: seq<byte>) {
    data + available == data0 + available0 && data0 <= data
  }

  lemma TookNone(data: seq<byte>, available: seq<byte>)
    ensures Took(data, available, data, available)
  {
  }

  lemma TookMore(d0: seq<byte>, a0: seq<byte>, d1: seq<byte>, a1: seq<byte>, d2: seq<byte>, a2: seq<byte>)
    requires Took(d0, a0, d1, a1) && Took(d1, a1, d2, a2)
    ensures Took(d0, a0, d2, a2)
  {
  }

  lemma TextKept(d0: seq<byte>, a0: seq<byte>, d1: seq<byte>, a1: seq<byte>, n: nat)
    requires Took(d0, a0, d1, a1) && n <= |d0|
    ensures n <= |d1| && d1[..n] == d0[..n] && |d0| + |a0| == |d1| + |a1|
  {
    assert |d0 + a0| == |d1 + a1|;
  }

  /** Whether there is room for output after one more block. */
  method FlushPending(tb: TokenBuffer) returns (outFull: bool)
    requires tb.earlier <= tb.blocks
    modifies tb`blocks
    ensures tb.Reports() == old(tb.Reports()) + [outFull] && tb.blocks == old(tb.blocks) + 1
  {
    outFull := tb.fullAfter(tb.blocks);
    tb.blocks := tb.blocks + 1;
  }

  /** No block found the output full. */
  ghost predicate Quiet(reports: seq<bool>) {
    forall k :: 0 <= k < |reports| ==> !reports[k]
  }

  /** The last block did, and no other. */
  ghost predicate FullAtLast(reports: seq<bool>) {
    reports != [] && reports[|reports| - 1] && Quiet(reports[..|reports| - 1])
  }

  lemma OneMoreReport(reports: seq<bool>, full: bool)
    requires Quiet(reports)
    ensures if full then FullAtLast(reports + [full]) else Quiet(reports + [full])
  {
    assert (reports + [full])[..|reports|] == reports;
  }

  lemma FullIsLast(reports: seq<bool>)
    requires FullAtLast(reports)
    ensures !Quiet(reports)
  {
  }

  /** FLUSH_BLOCK_ONLY: the block covers exactly the input that its tokens stand for. */
  method FlushBlockOnly(s: DeflateState, tb: TokenBuffer) returns (outFull: bool, ghost storedLen: nat)
    requires Separate(s, tb) && Sound(s, tb, 0) && Blocked(s, tb)
    modifies s`blockStart, tb`lastLit, tb`flushed, tb`blocks
    ensures tb.Valid() && tb.lastLit == 0 && tb.Tokens() == old(tb.Tokens()) == tb.flushed && Blocked(s, tb)
    ensures tb.Reports() == old(tb.Reports()) + [outFull] && tb.blocks == old(tb.blocks) + 1
    ensures storedLen == |Expand(tb.flushed)| - old(|Expand(tb.flushed)|) == s.strstart - old(s.blockStart)
  {
    hide Expand, Within, Recorded;
    TokensExtend(tb.flushed, Recorded(tb.lBuf[..tb.lastLit], tb.dBuf[..tb.lastLit]));
    tb.Restart();
    storedLen := s.strstart - s.blockStart;
    s.blockStart := s.strstart;
    outFull := FlushPending(tb);
  }

  lemma {:induction false} TokensExtend(ts: seq<Token>, us: seq<Token>)
    ensures |Expand(ts)| <= |Expand(ts + us)|
  {
    if us == [] {
      assert ts + us == ts;
    } else {
      TokensExtend(ts, us[..|us| - 1]);
      assert ts + us == (ts + us[..|us| - 1]) + [us[|us| - 1]];
      ExpandNext(ts + us[..|us| - 1], us[|us| - 1]);
    }
  }

  // ---- one position ----

  /** After the current string has been entered, where there is a whole one. */
  ghost predicate Entered(s: DeflateState)
    reads s, s.window, s.head, s.prev
  {
    && s.Sized() && s.Holding() && s.Spanned() && s.Chained() && s.insert <= s.strstart && s.insert < MIN_MATCH
    && (s.top == 0 || s.top + 2 <= |s.data|)
    && (if s.lookahead >= MIN_MATCH then
          s.insert == 0 && s.top == s.Cur() + 1 && Ready(s.hashBits, s.insH, s.data, s.Cur() + 1)
        else s.top + s.insert <= s.Cur())
  }

  /** Enters the current string, if it is whole, and returns the chain's former head. */
  method Enter(s: DeflateState, ghost chain: nat) returns (hashHead: nat)
    requires s.Base() && s.lookahead > 0
    modifies s`insH, s`ins, s`top, s.head, s.prev
    ensures Entered(s)
    ensures hashHead != 0 && s.strstart - hashHead <= s.MaxDist() ==> s.lookahead >= MIN_MATCH && Candidate(s, hashHead)
    ensures s.prev.Length > 0 && s.wSize >= 512
            && ToSearch(s, hashHead, chain) == old(Before(s, chain))
  {
    hide WindowOk, Chains, Ready, Slot, OnChain, TableSize, Visited;
    ghost var head0, prev0 := s.head[..], s.prev[..];
    hashHead := 0;
    if s.lookahead >= MIN_MATCH {
      hashHead := s.InsertString(s.strstart);
      OnwardIs(s, hashHead, head0, prev0, chain);
    }
  }

  /** The strings a search would go through once the current one is entered. */
  ghost function Before(s: DeflateState, chain: nat): seq<nat>
    requires s.wSize >= 512
    reads s`data, s`base, s`strstart, s`lookahead, s.head, s.prev
  {
    Onward(s.hashBits, s.data, s.base, s.strstart, s.lookahead, s.head[..], s.prev[..], s.MaxDist(), chain)
  }

  /** The strings that a search from the head of the chain goes through. */
  ghost function ToSearch(s: DeflateState, hashHead: nat, chain: nat): seq<nat>
    requires s.wSize >= 512 && s.prev.Length > 0
    reads s`strstart, s.prev
  {
    if hashHead != 0 && s.strstart - hashHead <= s.MaxDist() then Visited(s.prev[..], hashHead, SearchLimit(s), chain)
    else []
  }

  lemma OnwardIs(s: DeflateState, hashHead: nat, head0: seq<nat>, prev0: seq<nat>, chain: nat)
    requires s.wSize >= 512 && s.prev.Length > 0 && 8 <= s.hashBits <= 16 && s.lookahead >= MIN_MATCH
    requires s.Cur() + 3 <= |s.data| && Slot(s.hashBits, s.data, s.Cur()) < |head0|
    requires hashHead == head0[Slot(s.hashBits, s.data, s.Cur())]
    requires |prev0| == s.prev.Length && s.prev[..] == prev0[s.strstart % s.prev.Length := hashHead]
    ensures ToSearch(s, hashHead, chain) ==
            Onward(s.hashBits, s.data, s.base, s.strstart, s.lookahead, head0, prev0, s.MaxDist(), chain)
  {
    hide Slot, Visited;
  }

  /** A literal at the current position, and on to the next. */
  method EmitLiteral(s: DeflateState, tb: TokenBuffer) returns (full: bool)
    requires Separate(s, tb) && Entered(s) && s.lookahead > 0 && Sound(s, tb, 0) && tb.lastLit < tb.litBufsize - 1
    modifies s`strstart, s`lookahead, tb`lastLit, tb.lBuf, tb.dBuf
    ensures s.Base() && Sound(s, tb, 0) && full == (tb.lastLit == tb.litBufsize - 1)
    ensures s.Cur() == old(s.Cur()) + 1 && Grew(old(tb.Tokens()), tb.Tokens(), Literal(TextAt(s.data, old(s.Cur()))))
  {
    hide WindowOk, Chains, Ready, Recorded, Expand, Within;
    s.EndInWindow();
    WindowAt(s.window[..], s.data, s.base, |s.data| - s.base, s.strstart);
    LiteralExpands(tb.Tokens(), s.data, s.Cur());
    WithinNext(tb.Tokens(), Literal(s.window[s.strstart]), Reach(s));
    full := tb.TallyLit(s.window[s.strstart]);
    s.lookahead := s.lookahead - 1;
    s.strstart := s.strstart + 1;
  }

  // ---- what every compressor does ----

  /** A block goes out when the buffers are full. */
  method FlushIfFull(s: DeflateState, tb: TokenBuffer, full: bool) returns (outFull: bool)
    requires Separate(s, tb) && Sound(s, tb, 0) && Blocked(s, tb) && full == (tb.lastLit == tb.litBufsize - 1)
    requires Quiet(tb.Reports())
    modifies s`blockStart, tb`lastLit, tb`flushed, tb`blocks
    ensures tb.Valid() && tb.Tokens() == old(tb.Tokens()) && Blocked(s, tb) && tb.lastLit < tb.litBufsize - 1
    ensures Heard(outFull, tb.Reports()) && tb.blocks == old(tb.blocks) + (if full then 1 else 0)
  {
    hide Expand, Within, Recorded, Quiet, FullAtLast;
    outFull := false;
    if full {
      ghost var len;
      OneMoreReport(tb.Reports(), true);
      OneMoreReport(tb.Reports(), false);
      outFull, len := FlushBlockOnly(s, tb);
    }
  }

  /** What a round says of the output is what was reported. */
  ghost predicate Heard(outFull: bool, reports: seq<bool>) {
    if outFull then FullAtLast(reports) else Quiet(reports)
  }

  /** The end of a call: strings not yet entered are remembered, and what has been recorded
      goes out. */
  method FinishCall(s: DeflateState, tb: TokenBuffer, flush: FlushMode, keep: nat) returns (state: BlockState)
    requires Separate(s, tb) && s.Loose() && s.lookahead == 0 && Sound(s, tb, 0) && Blocked(s, tb) && keep < MIN_MATCH
    requires flush != NoFlush && Quiet(tb.Reports())
    modifies s`insert, s`blockStart, tb`lastLit, tb`flushed, tb`blocks
    ensures s.Base() && Sound(s, tb, 0) && Blocked(s, tb) && tb.lastLit < tb.litBufsize - 1
    ensures tb.flushed == tb.Tokens() == old(tb.Tokens()) && tb.lastLit == 0
    ensures Told(state, flush, tb.Reports(), false)
  {
    hide Expand, Within, Recorded, WindowOk, Chains, Ready, Quiet, FullAtLast, DeflateState.Base;
    RememberStrings(s, keep);
    state := HandOnLast(s, tb, flush);
  }

  method RememberStrings(s: DeflateState, keep: nat)
    requires s.Loose() && s.lookahead == 0 && keep < MIN_MATCH
    modifies s`insert
    ensures s.Base()
  {
    hide WindowOk, Chains, Ready;
    s.insert := if s.strstart < keep then s.strstart else keep;
  }

  /** The last block of a call, if there is anything in it or it is the last of all. */
  method HandOnLast(s: DeflateState, tb: TokenBuffer, flush: FlushMode) returns (state: BlockState)
    requires Separate(s, tb) && s.Base() && Sound(s, tb, 0) && Blocked(s, tb)
    requires flush != NoFlush && Quiet(tb.Reports())
    modifies s`blockStart, tb`lastLit, tb`flushed, tb`blocks
    ensures s.Base() && tb.Valid() && Blocked(s, tb) && tb.lastLit < tb.litBufsize - 1
    ensures tb.flushed == tb.Tokens() == old(tb.Tokens()) && tb.lastLit == 0
    ensures Told(state, flush, tb.Reports(), false)
  {
    hide Expand, Within, Recorded, WindowOk, Chains, Ready, Quiet, FullAtLast;
    ghost var len;
    OneMoreReport(tb.Reports(), true);
    OneMoreReport(tb.Reports(), false);
    var outFull := false;
    if flush == Finish {
      outFull, len := FlushBlockOnly(s, tb);
      return if outFull then FinishStarted else FinishDone;
    }
    if tb.lastLit > 0 {
      outFull, len := FlushBlockOnly(s, tb);
      if outFull { return NeedMore; }
    } else {
      NothingRecorded(tb.lBuf[..tb.lastLit], tb.dBuf[..tb.lastLit]);
    }
    return BlockDone;
  }

  /** What the result of a call says: more is needed exactly because a block found the output full, or
      because, with no flush asked for, the input is used up and too little lies ahead. */
  ghost predicate Told(state: BlockState, flush: FlushMode, reports: seq<bool>, starved: bool) {
    match state
    case NeedMore => FullAtLast(reports) || (Quiet(reports) && flush == NoFlush && starved)
    case BlockDone => Quiet(reports) && (flush == BlockFlush || flush == FullFlush)
    case FinishStarted => FullAtLast(reports) && flush == Finish
    case FinishDone => Quiet(reports) && flush == Finish
  }

  lemma NothingRecorded(l: seq<byte>, d: seq<nat>)
    requires |l| == |d| == 0
    ensures Recorded(l, d) == []
  {
  }

  /** Between two calls of one compressor. */
  ghost predicate Steady(s: DeflateState, tb: TokenBuffer, pend: nat)
    reads s, s.window, s.head, s.prev, tb, tb.lBuf, tb.dBuf
  {
    Separate(s, tb) && s.Loose() && Sound(s, tb, pend) && Blocked(s, tb) && tb.lastLit < tb.litBufsize - 1
  }

  /** Makes sure of lookahead.  Stops when there is nothing left to look at, and asks for more
      input when some may still come. */
  method Prepare(s: DeflateState, tb: TokenBuffer, flush: FlushMode, least: nat, ghost pend: nat)
    returns (more: bool, stop: bool)
    requires Steady(s, tb, pend) && 1 <= least <= MIN_LOOKAHEAD
    modifies s`available, s`insH, s`strstart, s`lookahead, s`matchStart, s`insert, s`highWater, s`blockStart
    modifies s`data, s`base, s`ins, s`top, s.window, s.head, s.prev
    ensures Steady(s, tb, pend) && (old(s.Hashed()) ==> s.Hashed())
    ensures tb.Valid() && tb.Tokens() == old(tb.Tokens())
    ensures s.Cur() == old(s.Cur()) && s.base + s.matchStart == old(s.base + s.matchStart)
            && (old(s.strstart) > 0 ==> s.strstart > 0)
    ensures Took(old(s.data), old(s.available), s.data, s.available) && s.lookahead >= old(s.lookahead)
    ensures more ==> flush == NoFlush && s.available == [] && s.lookahead < least
    ensures stop ==> s.lookahead == 0 && s.available == [] && flush != NoFlush
    ensures !more && !stop ==> s.lookahead > 0 && s.strstart + Min(least, MAX_MATCH + 3) <= s.window.Length
  {
    hide WindowOk, Chains, Ready, TableSize, Expand, Within, Recorded, Took;
    TookNone(s.data, s.available);
    more, stop := false, false;
    if s.lookahead < least {
      s.FillWindow();
      assert Took(old(s.data), old(s.available), s.data, s.available) by {
        TookHere(old(s.data), old(s.available), s.data, s.available);
      }
      TextKept(old(s.data), old(s.available), s.data, s.available, s.Cur() - pend);
      if s.lookahead < least && flush == NoFlush { return true, false; }
      if s.lookahead == 0 { return false, true; }
    } else {
      s.EndInWindow();
    }
  }

  lemma TookHere(d0: seq<byte>, a0: seq<byte>, d1: seq<byte>, a1: seq<byte>)
    requires d1 + a1 == d0 + a0 && d0 <= d1
    ensures Took(d0, a0, d1, a1)
  {
  }

  /** The end of a call that has passed all input. */
  method EndCall(s: DeflateState, tb: TokenBuffer, flush: FlushMode, keep: nat) returns (state: BlockState)
    requires Steady(s, tb, 0) && s.lookahead == 0 && s.available == [] && keep < MIN_MATCH
    requires flush != NoFlush && Quiet(tb.Reports())
    modifies s`insert, s`blockStart, tb`lastLit, tb`flushed, tb`blocks
    ensures Steady(s, tb, 0) && s.Hashed() && AllDone(s, tb) && tb.Valid() && tb.Tokens() == old(tb.Tokens())
    ensures Told(state, flush, tb.Reports(), false)
  {
    hide WindowOk, Chains, Ready, Recorded, Expand, Within, TableSize, Quiet, Told;
    state := FinishCall(s, tb, flush, keep);
    assert s.data[..s.Cur()] == s.data;
  }

  // ---- deflate_fast ----

  /** Records the match found here. */
  method EmitMatch(s: DeflateState, tb: TokenBuffer, dist: nat, len: nat, ghost p: nat) returns (full: bool)
    requires Separate(s, tb) && tb.Valid() && tb.lastLit < tb.litBufsize - 1
    requires p <= |s.data| && Expand(tb.Tokens()) == s.data[..p] && Within(tb.Tokens(), Reach(s))
    requires MIN_MATCH <= len <= MAX_MATCH && dist <= Reach(s) < 0x1_0000 && Repeats(s.data, p, dist, len)
    modifies tb`lastLit, tb.lBuf, tb.dBuf
    ensures tb.Valid() && full == (tb.lastLit == tb.litBufsize - 1)
    ensures p + len <= |s.data| && Expand(tb.Tokens()) == s.data[..p + len] && Within(tb.Tokens(), Reach(s))
    ensures Grew(old(tb.Tokens()), tb.Tokens(), Match(dist, len))
  {
    hide Expand, Recorded, Within;
    MatchExpands(tb.Tokens(), s.data, p, dist, len);
    WithinNext(tb.Tokens(), Match(dist, len), Reach(s));
    full := tb.TallyDist(dist, len);
  }

  /** Enters every string of a short match; the first has been entered already. */
  method InsertRest(s: DeflateState, len: nat)
    requires len >= MIN_MATCH && s.Sized() && s.Holding() && s.Chained() && s.insert == 0 && s.lookahead >= MIN_MATCH
    requires s.top == s.Cur() + 1 && Ready(s.hashBits, s.insH, s.data, s.Cur() + 1)
    requires s.Cur() + len + s.lookahead == |s.data|
    modifies s`insH, s`ins, s`top, s`strstart, s`matchLength, s.head, s.prev
    ensures s.Base() && s.strstart == old(s.strstart) + len && s.matchLength == 0
  {
    hide WindowOk, Chains, Ready, Slot, OnChain, TableSize;
    s.matchLength := len - 1;
    while true
      invariant s.Chained() && s.matchLength >= 1
      invariant s.top == s.Cur() + 1 && s.top + 2 <= |s.data| && Ready(s.hashBits, s.insH, s.data, s.Cur() + 1)
      invariant s.strstart + s.matchLength + 1 == old(s.strstart) + len
      decreases s.matchLength
    {
      s.strstart := s.strstart + 1;
      var former := s.InsertString(s.strstart);
      s.matchLength := s.matchLength - 1;
      if s.matchLength == 0 { break; }
    }
    s.strstart := s.strstart + 1;
  }

  /** Passes a long match without entering its strings, and starts the hash afresh. */
  method SkipMatch(s: DeflateState, len: nat)
    requires MIN_MATCH <= len <= MAX_MATCH && s.Sized() && s.Holding() && s.Chained() && s.insert == 0
    requires s.top == s.Cur() + 1 && s.top + 2 <= |s.data| && s.Cur() + len + s.lookahead == |s.data|
    requires s.strstart + MAX_MATCH + 1 < s.window.Length
    modifies s`strstart, s`matchLength, s`insH
    ensures s.Base() && s.strstart == old(s.strstart) + len && s.matchLength == 0
  {
    hide WindowOk, Chains, Ready, Slot, OnChain, TableSize, UpdateHash, ByteWord, ParamsFor;
    s.strstart := s.strstart + len;
    s.matchLength := 0;
    if s.Cur() + 2 <= |s.data| {
      WindowAt(s.window[..], s.data, s.base, |s.data| - s.base, s.strstart);
      WindowAt(s.window[..], s.data, s.base, |s.data| - s.base, s.strstart + 1);
      ReadyFresh(s.hashBits, s.data, s.Cur());
    }
    s.insH := ByteWord(s.window[s.strstart]);
    s.insH := UpdateHash(ParamsFor(s.hashBits), s.insH, s.window[s.strstart + 1]);
  }

  /** One match of the fast compressor. */
  method FastMatch(s: DeflateState, tb: TokenBuffer) returns (full: bool)
    requires Separate(s, tb) && Entered(s) && Sound(s, tb, 0) && tb.lastLit < tb.litBufsize - 1
    requires MIN_MATCH <= s.matchLength <= s.lookahead && Found(s, s.matchLength)
    requires s.strstart + MAX_MATCH + 1 < s.window.Length
    modifies s`strstart, s`lookahead, s`matchLength, s`insH, s`ins, s`top, s.head, s.prev, tb`lastLit, tb.lBuf, tb.dBuf
    ensures s.Base() && Sound(s, tb, 0) && full == (tb.lastLit == tb.litBufsize - 1) && s.matchLength == 0
    ensures s.Cur() == old(s.Cur()) + old(s.matchLength)
    ensures Grew(old(tb.Tokens()), tb.Tokens(), Match(old(s.strstart - s.matchStart), old(s.matchLength)))
  {
    hide WindowOk, Chains, Ready, Recorded, Expand, Within, TableSize, Repeats;
    var len := s.matchLength;
    full := EmitMatch(s, tb, s.strstart - s.matchStart, len, s.Cur());
    s.lookahead := s.lookahead - len;
    if len <= s.maxLazyMatch && s.lookahead >= MIN_MATCH {
      InsertRest(s, len);
    } else {
      SkipMatch(s, len);
    }
  }

  /** One position of the fast compressor: a match where one is found, or a literal. */
  method FastStep(s: DeflateState, tb: TokenBuffer) returns (full: bool)
    requires Steady(s, tb, 0) && s.Hashed() && s.lookahead > 0 && s.strstart + MAX_MATCH + 1 < s.window.Length
    requires s.prevLength == MIN_MATCH - 1 && s.matchLength < MIN_MATCH
    modifies s`strstart, s`lookahead, s`matchStart, s`matchLength, s`insH, s`ins, s`top, s.head, s.prev
    modifies tb`lastLit, tb.lBuf, tb.dBuf
    ensures s.Base() && Sound(s, tb, 0) && full == (tb.lastLit == tb.litBufsize - 1) && s.matchLength < MIN_MATCH
    ensures s.Cur() > old(s.Cur())
    ensures s.wSize >= 512 && FastPicked(old(tb.Tokens()), tb.Tokens(), s.data, old(s.base), old(s.strstart),
                                         old(s.lookahead), old(Before(s, SearchLength(s))), s.niceLength)
  {
    hide WindowOk, Chains, Ready, Recorded, Expand, Within, TableSize, Candidate, Found, FastPicked, Outdone, Onward;
    hide FastPicks, Grew;
    ghost var ts, at, ms := tb.Tokens(), s.strstart, Before(s, SearchLength(s));
    FastSearch(s);
    ghost var len := s.matchLength;
    if s.matchLength >= MIN_MATCH {
      MatchPicks(s.data, s.base, at, s.lookahead, ms, s.niceLength, s.matchStart, len, ts);
      full := FastMatch(s, tb);
    } else {
      LiteralPicks(s.data, s.base, at, s.lookahead, ms, s.niceLength, len, ts);
      full := EmitLiteral(s, tb);
    }
  }

  /** Enters the current string and looks for a match. */
  method FastSearch(s: DeflateState)
    requires s.Base() && s.lookahead > 0 && s.strstart + MAX_MATCH < s.window.Length
    requires s.prevLength == MIN_MATCH - 1 && s.matchLength < MIN_MATCH
    modifies s`matchStart, s`matchLength, s`insH, s`ins, s`top, s.head, s.prev
    ensures Entered(s) && s.wSize >= 512 && s.matchLength <= s.lookahead + MIN_MATCH
    ensures s.matchLength >= MIN_MATCH ==>
              Found(s, s.matchLength) && s.matchLength <= s.lookahead && s.matchStart < s.strstart
              && s.matchStart in old(Before(s, SearchLength(s)))
              && Outdone(s.data, s.base, s.strstart, s.lookahead, [s.matchStart], s.matchLength)
    ensures Outdone(s.data, s.base, s.strstart, s.lookahead, old(Before(s, SearchLength(s))), s.matchLength)
            || (s.matchLength >= MIN_MATCH && s.matchLength >= Min(s.niceLength, s.lookahead))
  {
    hide WindowOk, Chains, Ready, TableSize, Candidate, Found, Visited, Outdone, Onward;
    var hashHead := Enter(s, SearchLength(s));
    if hashHead != 0 && s.strstart - hashHead <= s.MaxDist() {
      s.matchLength := LongestMatch(s, hashHead);
      if s.matchLength >= MIN_MATCH { FoundSays(s, s.matchLength); }
    } else {
      NoneToOutdo(s);
    }
  }

  lemma FoundSays(s: DeflateState, len: nat)
    requires Found(s, len)
    ensures 0 < s.matchStart < s.strstart
  {
  }

  lemma NoneToOutdo(s: DeflateState)
    ensures Outdone(s.data, s.base, s.strstart, s.lookahead, [], s.matchLength)
  {
  }

  lemma MatchPicks(data: seq<byte>, base: nat, at: nat, ahead: nat, ms: seq<nat>, nice: nat, m: nat, len: nat,
                   ts: seq<Token>)
    requires len >= MIN_MATCH && m < at && m in ms && Outdone(data, base, at, ahead, [m], len)
    requires Outdone(data, base, at, ahead, ms, len) || len >= Min(nice, ahead)
    ensures forall ts1: seq<Token> :: Grew(ts, ts1, Match(at - m, len)) ==>
              FastPicked(ts, ts1, data, base, at, ahead, ms, nice)
  {
    hide Outdone, Grew;
    assert FastPicks(Match(at - m, len), data, base, at, ahead, ms, nice);
  }

  lemma LiteralPicks(data: seq<byte>, base: nat, at: nat, ahead: nat, ms: seq<nat>, nice: nat, len: nat, ts: seq<Token>)
    requires len < MIN_MATCH && Outdone(data, base, at, ahead, ms, len)
    ensures forall ts1: seq<Token> :: Grew(ts, ts1, Literal(TextAt(data, base + at))) ==>
              FastPicked(ts, ts1, data, base, at, ahead, ms, nice)
  {
    hide Grew;
    assert FastPicks(Literal(TextAt(data, base + at)), data, base, at, ahead, ms, nice);
  }

  /** One more token. */
  ghost predicate Grew(ts0: seq<Token>, ts: seq<Token>, t: Token) {
    ts == ts0 + [t]
  }

  function TextAt(data: seq<byte>, p: nat): byte {
    if p < |data| then data[p] else 0
  }

  /** What the fast compressor records at a place of the text: the byte, if none of the strings searched
      makes a match, and otherwise a match with one of them, as long as it goes, that none of them
      outdoes unless it is nice enough. */
  ghost predicate FastPicks(t: Token, data: seq<byte>, base: nat, at: nat, ahead: nat, ms: seq<nat>, nice: nat) {
    match t
    case Literal(c) => c == TextAt(data, base + at) && Outdone(data, base, at, ahead, ms, MIN_MATCH - 1)
    case Match(dist, len) =>
      && MIN_MATCH <= len && dist <= at && at - dist in ms && Outdone(data, base, at, ahead, [at - dist], len)
      && (Outdone(data, base, at, ahead, ms, len) || len >= Min(nice, ahead))
  }

  ghost predicate FastPicked(ts0: seq<Token>, ts: seq<Token>, data: seq<byte>, base: nat, at: nat, ahead: nat,
                             ms: seq<nat>, nice: nat)
  {
    exists t: Token :: Grew(ts0, ts, t) && FastPicks(t, data, base, at, ahead, ms, nice)
  }

  /** What the fast compressor keeps besides. */
  ghost predicate Fast(s: DeflateState)
    reads s`prevLength, s`matchLength
  {
    s.prevLength == MIN_MATCH - 1 && s.matchLength < MIN_MATCH
  }

  method FastRound(s: DeflateState, tb: TokenBuffer) returns (outFull: bool)
    requires Steady(s, tb, 0) && s.Hashed() && s.lookahead > 0 && s.strstart + MAX_MATCH + 1 < s.window.Length
             && Fast(s)
    requires Quiet(tb.Reports())
    modifies s`strstart, s`lookahead, s`matchStart, s`matchLength, s`insH, s`ins, s`top, s.head, s.prev
    modifies s`blockStart, tb`lastLit, tb`flushed, tb`blocks, tb.lBuf, tb.dBuf
    ensures Steady(s, tb, 0) && s.Hashed() && Fast(s) && s.Cur() > old(s.Cur())
    ensures Heard(outFull, tb.Reports())
    ensures s.wSize >= 512 && FastPicked(old(tb.Tokens()), tb.Tokens(), s.data, old(s.base), old(s.strstart),
                                         old(s.lookahead), old(Before(s, SearchLength(s))), s.niceLength)
  {
    hide WindowOk, Chains, Ready, Recorded, Expand, Within, TableSize, Quiet, FullAtLast, FastPicks, Onward;
    var full := FastStep(s, tb);
    outFull := FlushIfFull(s, tb, full);
  }

  /** Makes sure of lookahead, and passes one match or literal if there is one to pass. */
  method FastTurn(s: DeflateState, tb: TokenBuffer, flush: FlushMode) returns (more: bool, stop: bool, outFull: bool)
    requires Steady(s, tb, 0) && s.Hashed() && Fast(s) && Quiet(tb.Reports())
    modifies s, s.window, s.head, s.prev, tb, tb.lBuf, tb.dBuf
    ensures Steady(s, tb, 0) && s.Hashed() && Fast(s) && tb.earlier == old(tb.earlier)
    ensures Took(old(s.data), old(s.available), s.data, s.available) && Heard(outFull, tb.Reports())
    ensures more ==> flush == NoFlush && s.available == [] && s.lookahead < MIN_LOOKAHEAD && !outFull
    ensures stop ==> s.lookahead == 0 && s.available == [] && flush != NoFlush && !outFull
    ensures !more && !stop ==> Left(s) < old(Left(s))
  {
    hide Took, Steady, DeflateState.Hashed, Quiet, FullAtLast, Expand, Within, Recorded, Onward, Before, FastPicked;
    ghost var d0, a0 := s.data, s.available;
    SteadyCur(s, tb, 0);
    more, stop := Prepare(s, tb, flush, MIN_LOOKAHEAD, 0);
    TextKept(d0, a0, s.data, s.available, s.Cur());
    outFull := false;
    if more || stop { return; }
    outFull := FastRound(s, tb);
  }

  /** deflate_fast: no lazy evaluation. */
  method DeflateFast(s: DeflateState, tb: TokenBuffer, flush: FlushMode) returns (state: BlockState)
    requires Steady(s, tb, 0) && s.Hashed() && Fast(s)
    requires Quiet(tb.Reports())
    modifies s, s.window, s.head, s.prev, tb, tb.lBuf, tb.dBuf
    ensures Steady(s, tb, 0) && s.Hashed() && Fast(s)
    ensures Took(old(s.data), old(s.available), s.data, s.available)
    ensures state != NeedMore ==> AllDone(s, tb)
    ensures Told(state, flush, tb.Reports(), s.available == [] && s.lookahead < MIN_LOOKAHEAD)
    ensures tb.earlier == old(tb.earlier)
  {
    hide Took, Steady, DeflateState.Hashed, Quiet, FullAtLast, Expand;
    TookNone(s.data, s.available);
    while true
      invariant Steady(s, tb, 0) && s.Hashed() && Fast(s)
      invariant Took(old(s.data), old(s.available), s.data, s.available)
      invariant Quiet(tb.Reports()) && tb.earlier == old(tb.earlier)
      decreases Left(s)
    {
      ghost var d0, a0 := s.data, s.available;
      SteadyCur(s, tb, 0);
      var more, stop, outFull := FastTurn(s, tb, flush);
      TookMore(old(s.data), old(s.available), d0, a0, s.data, s.available);
      SteadyCur(s, tb, 0);
      if more || outFull { return NeedMore; }
      if stop { break; }
    }
    state := EndCall(s, tb, flush, MIN_MATCH - 1);
  }

  lemma SteadyCur(s: DeflateState, tb: TokenBuffer, pend: nat)
    requires Steady(s, tb, pend)
    ensures pend <= s.Cur() <= |s.data|
  {
  }

  // ---- deflate_slow ----

  /** A match one place back, found and not yet recorded.  Its start is counted from the start
      of the input: the window may have slid past it since, leaving an index of -1. */
  ghost predicate Held(data: seq<byte>, cur: nat, m: int, len: nat, reach: nat) {
    1 <= cur && 0 <= m < cur - 1 && cur - 1 - m <= reach && Repeats(data, cur - 1, cur - 1 - m, len)
  }

  lemma HeldKept(d0: seq<byte>, d1: seq<byte>, cur: nat, m: int, len: nat, reach: nat)
    requires Held(d0, cur, m, len, reach) && d0 <= d1
    ensures Held(d1, cur, m, len, reach)
  {
    var dist := cur - 1 - m;
    forall k {:trigger Echoes(d1, dist, k)} | cur - 1 <= k < cur - 1 + len ensures Echoes(d1, dist, k) {
      assert Echoes(d0, dist, k);
    }
  }

  /** Between two positions of the lazy compressor. */
  ghost predicate Lazy(s: DeflateState)
    reads s`matchLength, s`matchAvailable, s`strstart, s`base, s`data, s`matchStart
  {
    && MIN_MATCH - 1 <= s.matchLength <= MAX_MATCH && (s.matchAvailable ==> s.strstart > 0)
    && (s.matchLength >= MIN_MATCH ==>
          s.matchAvailable && Held(s.data, s.Cur(), s.base + s.matchStart, s.matchLength, Reach(s)))
  }

  function Pend(s: DeflateState): nat
    reads s`matchAvailable
  {
    if s.matchAvailable then 1 else 0
  }

  /** Looks for a match here, unless the one held is long enough. */
  method Search(s: DeflateState, hashHead: nat)
    requires Entered(s) && s.strstart + MAX_MATCH < s.window.Length && s.lookahead > 0
    requires hashHead != 0 && s.strstart - hashHead <= s.MaxDist() ==>
               s.lookahead >= MIN_MATCH && Candidate(s, hashHead)
    requires MIN_MATCH - 1 <= s.prevLength <= MAX_MATCH
    modifies s`matchLength, s`matchStart
    ensures MIN_MATCH - 1 <= s.matchLength <= MAX_MATCH && s.matchLength <= s.lookahead + MIN_MATCH
    ensures s.matchLength > s.prevLength ==> Found(s, s.matchLength)
    ensures s.prev.Length > 0 && s.wSize >= 512
            && LazyFinds(s.data, s.base, s.strstart, s.lookahead, old(ToSearch(s, hashHead, SearchLength(s))),
                         s.prevLength,
                         s.maxLazyMatch, s.niceLength, s.filtered, s.matchStart, s.matchLength)
  {
    hide WindowOk, Chains, Ready, TableSize, Candidate, Found, Outdone, Visited;
    ghost var ms := ToSearch(s, hashHead, SearchLength(s));
    s.matchLength := MIN_MATCH - 1;
    if hashHead != 0 && s.prevLength < s.maxLazyMatch && s.strstart - hashHead <= s.MaxDist() {
      s.matchLength := LongestMatch(s, hashHead);
      SomeSearched(s, hashHead);
      ghost var r := s.matchLength;
      if r > s.prevLength { FoundSays(s, r); }
      RawFinds(s, ms, r);
      if s.matchLength <= 5 && (s.filtered || (s.matchLength == MIN_MATCH && s.strstart - s.matchStart > TOO_FAR)) {
        s.matchLength := MIN_MATCH - 1;
      }
    }
  }

  /** A search that had a match of length held in hand came to length r. */
  ghost predicate RawFound(data: seq<byte>, base: nat, at: nat, ahead: nat, ms: seq<nat>, held: nat, nice: nat,
                           start: int, r: nat)
  {
    && (Outdone(data, base, at, ahead, ms, r) || (r > held && r >= Min(nice, ahead)))
    && (r > held ==> 0 <= start < at && start in ms && Outdone(data, base, at, ahead, [start], r))
  }

  /** What the lazy compressor comes to at a place of the text: nothing, if it has a match good enough in
      hand or no string to look at; otherwise what the search says, unless that is short and not
      worth its distance. */
  ghost predicate LazyFinds(data: seq<byte>, base: nat, at: nat, ahead: nat, ms: seq<nat>, held: nat, lazy: nat,
                            nice: nat, filtered: bool, start: int, len: nat)
  {
    if ms == [] || held >= lazy then len == MIN_MATCH - 1
    else
      exists r: nat :: RawFound(data, base, at, ahead, ms, held, nice, start, r) && len == Kept(filtered, at, start, r)
  }

  /** Short matches are dropped when the data is filtered, and matches of three when they are too far. */
  function Kept(filtered: bool, at: nat, start: int, r: nat): nat {
    if r <= 5 && (filtered || (r == MIN_MATCH && at - start > TOO_FAR)) then MIN_MATCH - 1 else r
  }

  lemma SomeSearched(s: DeflateState, hashHead: nat)
    requires s.wSize >= 512 && s.prev.Length > 0
    ensures Searched(s, hashHead) != []
  {
    hide Visited;
  }

  lemma RawFinds(s: DeflateState, ms: seq<nat>, r: nat)
    requires NoneLonger(s, ms, r) || (r > s.prevLength && r >= Min(s.niceLength, s.lookahead))
    requires r > s.prevLength ==>
               Found(s, r) && s.matchStart >= 0 && s.matchStart in ms && NoneLonger(s, [s.matchStart], r)
    ensures RawFound(s.data, s.base, s.strstart, s.lookahead, ms, s.prevLength, s.niceLength, s.matchStart, r)
  {
    hide Outdone, Repeats;
  }

  lemma ReadyPast(bits: nat, insH: bv32, data: seq<byte>, p: nat)
    requires 8 <= bits <= 16 && p + 3 > |data|
    ensures Ready(bits, insH, data, p)
  {
  }

  /** Strings are being entered past the current one, as far as whole strings go. */
  ghost predicate Passing(s: DeflateState)
    reads s`insert, s`strstart, s`base, s`data, s`top, s`insH, s`ins, s.head, s.prev
  {
    && s.Chained() && (s.top == 0 || s.top + 2 <= |s.data|) && s.insert < MIN_MATCH && s.insert <= s.strstart
    && ((s.insert == 0 && s.top <= s.Cur() + 1) || (s.top + s.insert <= s.Cur() && s.Cur() + 3 > |s.data|))
    && Ready(s.hashBits, s.insH, s.data, s.Cur() + 1)
  }

  method PassOne(s: DeflateState, maxInsert: int)
    requires s.Sized() && s.Holding() && Passing(s) && s.Cur() + 1 <= |s.data|
             && s.base + maxInsert == |s.data| - MIN_MATCH
    modifies s`insH, s`ins, s`top, s`strstart, s.head, s.prev
    ensures Passing(s) && s.strstart == old(s.strstart) + 1
  {
    hide WindowOk, Chains, Slot, OnChain, TableSize, Ready;
    s.strstart := s.strstart + 1;
    if s.strstart <= maxInsert {
      var former := s.InsertString(s.strstart);
    } else {
      ReadyPast(s.hashBits, s.insH, s.data, s.Cur() + 1);
    }
  }

  /** Enters the strings of the match up to the last whole one; two have been entered. */
  method InsertUpTo(s: DeflateState, maxInsert: int)
    requires s.Sized() && s.Holding() && Passing(s) && s.prevLength >= 1
    requires s.Cur() + s.prevLength + 1 + s.lookahead == |s.data| && s.base + maxInsert == |s.data| - MIN_MATCH
    modifies s`insH, s`ins, s`top, s`strstart, s`prevLength, s.head, s.prev
    ensures s.Base() && s.strstart == old(s.strstart) + old(s.prevLength) + 1 && s.prevLength == 0
  {
    hide WindowOk, Passing, Chains, Ready, TableSize;
    while true
      invariant Passing(s) && s.prevLength >= 1
      invariant s.strstart + s.prevLength == old(s.strstart) + old(s.prevLength)
      decreases s.prevLength
    {
      PassOne(s, maxInsert);
      s.prevLength := s.prevLength - 1;
      if s.prevLength == 0 { break; }
    }
    PassedAll(s);
    s.strstart := s.strstart + 1;
  }

  lemma PassedAll(s: DeflateState)
    requires Passing(s) && s.Cur() + 1 + s.lookahead == |s.data|
    ensures s.insert <= s.strstart + 1 && s.insert < MIN_MATCH && s.top + s.insert <= s.Cur() + 1
    ensures s.Chained() && (s.top == 0 || s.top + 2 <= |s.data|) && (s.lookahead >= MIN_MATCH ==> s.insert == 0)
    ensures Ready(s.hashBits, s.insH, s.data, s.Cur() + 1)
  {
  }

  /** Passes the match held, entering its strings. */
  method PassHeld(s: DeflateState)
    requires Entered(s) && s.lookahead > 0 && MIN_MATCH <= s.prevLength <= s.lookahead + 1
    modifies s`insH, s`ins, s`top, s`strstart, s`lookahead, s`prevLength, s`matchAvailable, s`matchLength, s.head,
             s.prev
    ensures s.Base() && s.strstart == old(s.strstart) + old(s.prevLength) - 1
    ensures !s.matchAvailable && s.matchLength == MIN_MATCH - 1
  {
    hide WindowOk, Chains, TableSize, Ready, Slot, OnChain;
    var maxInsert := s.strstart + s.lookahead - MIN_MATCH;
    if s.lookahead < MIN_MATCH { ReadyPast(s.hashBits, s.insH, s.data, s.Cur() + 1); }
    s.lookahead := s.lookahead - (s.prevLength - 1);
    s.prevLength := s.prevLength - 2;
    InsertUpTo(s, maxInsert);
    s.matchAvailable := false;
    s.matchLength := MIN_MATCH - 1;
  }

  /** Records the match held, and passes it. */
  method LazyMatch(s: DeflateState, tb: TokenBuffer) returns (full: bool)
    requires Separate(s, tb) && Entered(s) && s.lookahead > 0 && Sound(s, tb, 1) && tb.lastLit < tb.litBufsize - 1
    requires MIN_MATCH <= s.prevLength <= MAX_MATCH
             && Held(s.data, s.Cur(), s.base + s.prevMatch, s.prevLength, Reach(s))
    modifies s`insH, s`ins, s`top, s`strstart, s`lookahead, s`prevLength, s`matchAvailable, s`matchLength, s.head,
             s.prev
    modifies tb`lastLit, tb.lBuf, tb.dBuf
    ensures s.Base() && Sound(s, tb, 0) && full == (tb.lastLit == tb.litBufsize - 1)
    ensures !s.matchAvailable && s.matchLength == MIN_MATCH - 1 && s.Cur() > old(s.Cur())
    ensures old(s.strstart - 1 - s.prevMatch) >= 0
            && Grew(old(tb.Tokens()), tb.Tokens(), Match(old(s.strstart - 1 - s.prevMatch), old(s.prevLength)))
  {
    hide WindowOk, Chains, Recorded, Expand, Within, TableSize, Ready, Repeats, Slot, OnChain;
    full := EmitMatch(s, tb, s.strstart - 1 - s.prevMatch, s.prevLength, s.Cur() - 1);
    PassHeld(s);
  }

  /** Records the byte one place back, and stays. */
  method EmitPrevious(s: DeflateState, tb: TokenBuffer) returns (full: bool)
    requires Separate(s, tb) && s.Sized() && s.Holding() && s.Spanned() && s.strstart > 0 && Sound(s, tb, 1)
    requires tb.lastLit < tb.litBufsize - 1
    modifies tb`lastLit, tb.lBuf, tb.dBuf
    ensures Sound(s, tb, 0) && full == (tb.lastLit == tb.litBufsize - 1)
    ensures s.Cur() > 0 && Grew(old(tb.Tokens()), tb.Tokens(), Literal(TextAt(s.data, s.Cur() - 1)))
  {
    hide WindowOk, Recorded, Expand, Within;
    s.EndInWindow();
    WindowAt(s.window[..], s.data, s.base, |s.data| - s.base, s.strstart - 1);
    LiteralExpands(tb.Tokens(), s.data, s.Cur() - 1);
    WithinNext(tb.Tokens(), Literal(s.window[s.strstart - 1]), Reach(s));
    full := tb.TallyLit(s.window[s.strstart - 1]);
  }

  /** On to the next position, leaving this one pending. */
  method StepOn(s: DeflateState)
    requires Entered(s) && s.lookahead > 0 && MIN_MATCH - 1 <= s.matchLength <= MAX_MATCH
    requires s.matchLength >= MIN_MATCH ==> Found(s, s.matchLength)
    modifies s`strstart, s`lookahead, s`matchAvailable
    ensures s.Base() && Lazy(s) && s.matchAvailable && s.strstart == old(s.strstart) + 1
  {
    hide WindowOk, Chains, Ready, TableSize;
    s.matchAvailable := true;
    s.strstart := s.strstart + 1;
    s.lookahead := s.lookahead - 1;
  }

  method RecordHeld(s: DeflateState, tb: TokenBuffer) returns (outFull: bool)
    requires Separate(s, tb) && Entered(s) && s.lookahead > 0 && Sound(s, tb, 1) && tb.lastLit < tb.litBufsize - 1
    requires MIN_MATCH <= s.prevLength <= MAX_MATCH
             && Held(s.data, s.Cur(), s.base + s.prevMatch, s.prevLength, Reach(s)) && Blocked(s, tb)
    requires Quiet(tb.Reports())
    modifies s`insH, s`ins, s`top, s`strstart, s`lookahead, s`prevLength, s`matchAvailable, s`matchLength, s.head,
             s.prev
    modifies s`blockStart, tb`lastLit, tb`flushed, tb`blocks, tb.lBuf, tb.dBuf
    ensures Steady(s, tb, Pend(s)) && s.Hashed() && Lazy(s) && s.Cur() > old(s.Cur())
    ensures Heard(outFull, tb.Reports()) && !s.matchAvailable
    ensures old(s.strstart - 1 - s.prevMatch) >= 0
            && Grew(old(tb.Tokens()), tb.Tokens(), Match(old(s.strstart - 1 - s.prevMatch), old(s.prevLength)))
  {
    hide WindowOk, Chains, Ready, Recorded, Expand, Within, TableSize, Held, Quiet, FullAtLast, Grew;
    var full := LazyMatch(s, tb);
    outFull := FlushIfFull(s, tb, full);
  }

  method RecordPrevious(s: DeflateState, tb: TokenBuffer) returns (outFull: bool)
    requires Separate(s, tb) && Entered(s) && s.lookahead > 0 && Sound(s, tb, 1) && tb.lastLit < tb.litBufsize - 1
    requires s.strstart > 0 && Blocked(s, tb) && MIN_MATCH - 1 <= s.matchLength <= MAX_MATCH
    requires s.matchLength >= MIN_MATCH ==> Found(s, s.matchLength)
    requires Quiet(tb.Reports())
    modifies s`strstart, s`lookahead, s`matchAvailable, s`blockStart, tb`lastLit, tb`flushed, tb`blocks, tb.lBuf,
             tb.dBuf
    ensures Steady(s, tb, Pend(s)) && s.Hashed() && Lazy(s) && s.Cur() > old(s.Cur())
    ensures Heard(outFull, tb.Reports()) && s.matchAvailable
    ensures old(s.Cur()) > 0 && Grew(old(tb.Tokens()), tb.Tokens(), Literal(TextAt(s.data, old(s.Cur()) - 1)))
  {
    hide WindowOk, Chains, Ready, Recorded, Expand, Within, TableSize, Held, Found, Quiet, FullAtLast, Grew;
    var full := EmitPrevious(s, tb);
    outFull := FlushIfFull(s, tb, full);
    StepOn(s);
  }

  /** Enters the current string and looks for a match better than the one held. */
  method Look(s: DeflateState)
    requires s.Base() && s.lookahead > 0 && s.strstart + MAX_MATCH < s.window.Length
    requires MIN_MATCH - 1 <= s.matchLength <= MAX_MATCH
    modifies s`matchStart, s`matchLength, s`prevLength, s`prevMatch, s`insH, s`ins, s`top, s.head, s.prev
    ensures Entered(s) && s.prevLength == old(s.matchLength) && s.prevMatch == old(s.matchStart)
    ensures MIN_MATCH - 1 <= s.matchLength <= MAX_MATCH && (s.matchLength > s.prevLength ==> Found(s, s.matchLength))
    ensures s.wSize >= 512
            && LazyFinds(s.data, s.base, s.strstart, s.lookahead, old(Before(s, ChainFor(s, s.matchLength))),
                         s.prevLength, s.maxLazyMatch, s.niceLength, s.filtered, s.matchStart, s.matchLength)
  {
    hide WindowOk, Chains, Ready, TableSize, Candidate, Found, Slot, OnChain, Visited, Onward, LazyFinds;
    var hashHead := Enter(s, ChainFor(s, s.matchLength));
    s.prevLength, s.prevMatch := s.matchLength, s.matchStart;
    Search(s, hashHead);
  }

  /** What the lazy compressor records with a search come to length len: the match held, unless what was
      found is longer; otherwise the byte before, if one is pending. */
  ghost predicate LazyTakes(ts0: seq<Token>, ts: seq<Token>, data: seq<byte>, cur: nat, pending: bool, back: int,
                            held: nat, len: nat, pending1: bool)
  {
    if held >= MIN_MATCH && len <= held then back >= 1 && Grew(ts0, ts, Match(back - 1, held)) && !pending1
    else pending1 && if pending then cur > 0 && Grew(ts0, ts, Literal(TextAt(data, cur - 1))) else ts == ts0
  }

  /** One round: the search came to a length and a start, and by these it was decided what to record; they
      are what is held from now on, if something is. */
  ghost predicate LazyPicked(ts0: seq<Token>, ts: seq<Token>, data: seq<byte>, base: nat, at: nat, ahead: nat,
                             ms: seq<nat>, pending: bool, start0: int, held: nat, lazy: nat, nice: nat, filtered: bool,
                             pending1: bool, start1: int, held1: nat)
  {
    exists start: int, len: nat ::
      && LazyFinds(data, base, at, ahead, ms, held, lazy, nice, filtered, start, len)
      && LazyTakes(ts0, ts, data, base + at, pending, at - start0, held, len, pending1)
      && (pending1 ==> held1 == len && start1 == start)
  }

  /** One position of the lazy compressor. */
  method SlowRound(s: DeflateState, tb: TokenBuffer) returns (outFull: bool)
    requires Steady(s, tb, Pend(s)) && s.Hashed() && Lazy(s) && s.lookahead > 0
             && s.strstart + MAX_MATCH < s.window.Length
    requires Quiet(tb.Reports())
    modifies s`strstart, s`lookahead, s`matchStart, s`matchLength, s`prevLength, s`prevMatch, s`matchAvailable
    modifies s`insH, s`ins, s`top, s`blockStart, s.head, s.prev, tb`lastLit, tb`flushed, tb`blocks, tb.lBuf, tb.dBuf
    ensures Steady(s, tb, Pend(s)) && s.Hashed() && Lazy(s) && s.Cur() > old(s.Cur())
    ensures Heard(outFull, tb.Reports())
    ensures s.wSize >= 512
            && LazyPicked(old(tb.Tokens()), tb.Tokens(), s.data, old(s.base), old(s.strstart), old(s.lookahead),
                          old(Before(s, ChainFor(s, s.matchLength))), old(s.matchAvailable), old(s.matchStart),
                          old(s.matchLength), s.maxLazyMatch, s.niceLength, s.filtered, s.matchAvailable, s.matchStart,
                          s.matchLength)
  {
    hide WindowOk, Chains, Ready, Recorded, Expand, Within, TableSize, Candidate, Found, Held, Slot, Quiet, FullAtLast;
    hide Onward, LazyFinds, Grew;
    ghost var ts, base, at, ahead := tb.Tokens(), s.base, s.strstart, s.lookahead;
    ghost var ms := Before(s, ChainFor(s, s.matchLength));
    ghost var pending, start0, held := s.matchAvailable, s.matchStart, s.matchLength;
    Look(s);
    ghost var start, len := s.matchStart, s.matchLength;
    outFull := false;
    if s.prevLength >= MIN_MATCH && s.matchLength <= s.prevLength {
      outFull := RecordHeld(s, tb);
    } else if s.matchAvailable {
      outFull := RecordPrevious(s, tb);
    } else {
      StepOn(s);
    }
    assert LazyFinds(s.data, base, at, ahead, ms, held, s.maxLazyMatch, s.niceLength, s.filtered, start, len);
    assert LazyTakes(ts, tb.Tokens(), s.data, base + at, pending, at - start0, held, len, s.matchAvailable);
  }

  /** Makes sure of lookahead, and passes one position if there is one to pass. */
  method SlowTurn(s: DeflateState, tb: TokenBuffer, flush: FlushMode) returns (more: bool, stop: bool, outFull: bool)
    requires Steady(s, tb, Pend(s)) && s.Hashed() && Lazy(s) && Quiet(tb.Reports())
    modifies s, s.window, s.head, s.prev, tb, tb.lBuf, tb.dBuf
    ensures Steady(s, tb, Pend(s)) && s.Hashed() && Lazy(s) && tb.earlier == old(tb.earlier)
    ensures Took(old(s.data), old(s.available), s.data, s.available) && Heard(outFull, tb.Reports())
    ensures more ==> flush == NoFlush && s.available == [] && s.lookahead < MIN_LOOKAHEAD && !outFull
    ensures stop ==> s.lookahead == 0 && s.available == [] && flush != NoFlush && !outFull
    ensures !more && !stop ==> Left(s) < old(Left(s))
  {
    hide Took, Steady, DeflateState.Hashed, Held, Quiet, FullAtLast, Expand, Within, Recorded, Onward, Before,
         LazyPicked;
    ghost var d0, a0 := s.data, s.available;
    SteadyCur(s, tb, Pend(s));
    more, stop := Prepare(s, tb, flush, MIN_LOOKAHEAD, Pend(s));
    TextKept(d0, a0, s.data, s.available, s.Cur());
    LazyKept(s, d0, a0);
    outFull := false;
    if more || stop { return; }
    SteadyCur(s, tb, Pend(s));
    outFull := SlowRound(s, tb);
    SteadyCur(s, tb, Pend(s));
  }

  /** What is still to be passed. */
  ghost function Left(s: DeflateState): int
    reads s`data, s`available, s`base, s`strstart
  {
    |s.data| + |s.available| - s.Cur()
  }

  /** deflate_slow: a match is recorded only if the next position has no better one. */
  method DeflateSlow(s: DeflateState, tb: TokenBuffer, flush: FlushMode) returns (state: BlockState)
    requires Steady(s, tb, Pend(s)) && s.Hashed() && Lazy(s)
    requires Quiet(tb.Reports())
    modifies s, s.window, s.head, s.prev, tb, tb.lBuf, tb.dBuf
    ensures Steady(s, tb, Pend(s)) && s.Hashed() && Lazy(s)
    ensures Took(old(s.data), old(s.available), s.data, s.available)
    ensures state != NeedMore ==> AllDone(s, tb) && !s.matchAvailable
    ensures Told(state, flush, tb.Reports(), s.available == [] && s.lookahead < MIN_LOOKAHEAD)
    ensures tb.earlier == old(tb.earlier)
  {
    hide Took, Steady, DeflateState.Hashed, Lazy, Quiet, FullAtLast, Expand;
    TookNone(s.data, s.available);
    while true
      invariant Steady(s, tb, Pend(s)) && s.Hashed() && Lazy(s)
      invariant Took(old(s.data), old(s.available), s.data, s.available)
      invariant Quiet(tb.Reports()) && tb.earlier == old(tb.earlier)
      decreases Left(s)
    {
      ghost var d0, a0 := s.data, s.available;
      SteadyCur(s, tb, Pend(s));
      var more, stop, outFull := SlowTurn(s, tb, flush);
      TookMore(old(s.data), old(s.available), d0, a0, s.data, s.available);
      SteadyCur(s, tb, Pend(s));
      if more || outFull { return NeedMore; }
      if stop { break; }
    }
    state := SlowEnd(s, tb, flush);
  }

  lemma LazyKept(s: DeflateState, d0: seq<byte>, a0: seq<byte>)
    requires Took(d0, a0, s.data, s.available)
    requires s.matchLength >= MIN_MATCH ==> Held(d0, s.Cur(), s.base + s.matchStart, s.matchLength, Reach(s))
    ensures s.matchLength >= MIN_MATCH ==> Held(s.data, s.Cur(), s.base + s.matchStart, s.matchLength, Reach(s))
  {
    if s.matchLength >= MIN_MATCH { HeldKept(d0, s.data, s.Cur(), s.base + s.matchStart, s.matchLength, Reach(s)); }
  }

  /** The last byte may still be pending. */
  method SlowEnd(s: DeflateState, tb: TokenBuffer, flush: FlushMode) returns (state: BlockState)
    requires Steady(s, tb, Pend(s)) && Lazy(s) && s.lookahead == 0 && s.available == []
    requires flush != NoFlush && Quiet(tb.Reports())
    modifies s`insert, s`blockStart, s`matchAvailable, tb`lastLit, tb`flushed, tb`blocks, tb.lBuf, tb.dBuf
    ensures Steady(s, tb, 0) && s.Hashed() && AllDone(s, tb) && !s.matchAvailable && Lazy(s)
    ensures Told(state, flush, tb.Reports(), false)
  {
    hide WindowOk, Chains, Ready, Recorded, Expand, Within, TableSize, Quiet, Told;
    if s.matchAvailable {
      var full := EmitPrevious(s, tb);
      s.matchAvailable := false;
    }
    state := FinishCall(s, tb, flush, MIN_MATCH - 1);
    assert s.data[..s.Cur()] == s.data;
  }

  // ---- deflate_rle and deflate_huff ----

  /** Passes len bytes that have been recorded; the chains stay as they are. */
  method Pass(s: DeflateState, len: nat)
    requires s.Loose() && len <= s.lookahead
    modifies s`strstart, s`lookahead, s`matchLength
    ensures s.Loose() && s.Cur() == old(s.Cur()) + len && s.matchLength == 0
  {
    hide WindowOk, Chains;
    s.lookahead := s.lookahead - len;
    s.strstart := s.strstart + len;
    s.matchLength := 0;
  }

  method PassLiteral(s: DeflateState, tb: TokenBuffer) returns (full: bool)
    requires Steady(s, tb, 0) && s.lookahead > 0
    modifies s`strstart, s`lookahead, s`matchLength, tb`lastLit, tb.lBuf, tb.dBuf
    ensures s.Loose() && Sound(s, tb, 0) && full == (tb.lastLit == tb.litBufsize - 1) && s.Cur() == old(s.Cur()) + 1
    ensures Grew(old(tb.Tokens()), tb.Tokens(), Literal(TextAt(s.data, old(s.Cur()))))
  {
    hide WindowOk, Chains, Recorded, Expand, Within;
    s.EndInWindow();
    WindowAt(s.window[..], s.data, s.base, |s.data| - s.base, s.strstart);
    LiteralExpands(tb.Tokens(), s.data, s.Cur());
    WithinNext(tb.Tokens(), Literal(s.window[s.strstart]), Reach(s));
    full := tb.TallyLit(s.window[s.strstart]);
    Pass(s, 1);
  }

  /** How often the previous byte repeats, up to the longest match and not past the input. */
  method RunLengthHere(s: DeflateState) returns (len: nat)
    requires s.Sized() && s.Holding() && s.Spanned() && s.strstart + MAX_MATCH < s.window.Length
    ensures len == 0
            || (MIN_MATCH <= len <= MAX_MATCH && len <= s.lookahead && s.strstart > 0
                && Repeats(s.data, s.Cur(), 1, len))
    ensures s.strstart > 0 ==> LongestRun(s.data, s.Cur(), s.lookahead, len)
  {
    hide WindowOk, Repeats, Agree, NoLonger, LongestRun;
    len := 0;
    if s.lookahead < MIN_MATCH { ShortRun(s.data, s.Cur(), s.lookahead); }
    if s.lookahead >= MIN_MATCH && s.strstart > 0 {
      len := RawRun(s.window, s.strstart);
      ghost var raw := len;
      if len > s.lookahead { len := s.lookahead; }
      RunSays(s, raw, len);
    }
  }

  lemma RunSays(s: DeflateState, raw: nat, len: nat)
    requires s.Sized() && s.Holding() && s.Spanned() && s.lookahead >= MIN_MATCH && s.strstart > 0
    requires if raw == 0 then NoLonger(s.window[..], s.strstart, s.strstart - 1, MIN_MATCH - 1)
             else MIN_MATCH <= raw <= MAX_MATCH && Agree(s.window[..], s.strstart, s.strstart - 1, raw)
                  && NoLonger(s.window[..], s.strstart, s.strstart - 1, raw)
    requires len == if raw <= s.lookahead then raw else s.lookahead
    ensures len == 0 || (MIN_MATCH <= len <= MAX_MATCH && Repeats(s.data, s.Cur(), 1, len))
    ensures LongestRun(s.data, s.Cur(), s.lookahead, len)
  {
    hide WindowOk, Repeats, Agree, NoLonger, LongestRun;
    if raw == 0 {
      RunIsLongest(s, MIN_MATCH - 1, len);
    } else {
      AgreeRepeats(s.window[..], s.data, s.base, |s.data| - s.base, s.strstart, s.strstart - 1, raw, len);
      RunIsLongest(s, raw, len);
    }
  }

  /** The run in the window, whether it is input or not. */
  method RawRun(w: array<byte>, at: nat) returns (len: nat)
    requires 1 <= at && at + MAX_MATCH < w.Length
    ensures if len == 0 then NoLonger(w[..], at, at - 1, MIN_MATCH - 1)
            else MIN_MATCH <= len <= MAX_MATCH && Agree(w[..], at, at - 1, len) && NoLonger(w[..], at, at - 1, len)
  {
    hide Agree, NoLonger;
    len := 0;
    var prev := w[at - 1];
    if prev != w[at] {
      Differs(w[..], at, at - 1, 0, 2);
    } else if prev != w[at + 1] {
      Differs(w[..], at, at - 1, 1, 2);
    } else if prev != w[at + 2] {
      Differs(w[..], at, at - 1, 2, 2);
    } else {
      len := CountSame(w, at, prev);
      SameBytes(w[..], at, len, prev);
      if len < MAX_MATCH { Differs(w[..], at, at - 1, len, len); } else { AllAgree(w[..], at, at - 1, len); }
    }
  }

  /** A longer run, if it is worth a match, is not there. */
  ghost predicate LongestRun(data: seq<byte>, p: nat, ahead: nat, len: nat) {
    forall k: nat {:trigger Repeats(data, p, 1, k)} ::
      MIN_MATCH <= k <= MAX_MATCH && k <= ahead && Repeats(data, p, 1, k) ==> k <= len
  }

  lemma ShortRun(data: seq<byte>, p: nat, ahead: nat)
    requires ahead < MIN_MATCH
    ensures LongestRun(data, p, ahead, 0)
  {
  }

  lemma RunIsLongest(s: DeflateState, raw: nat, len: nat)
    requires s.Sized() && s.Holding() && s.Spanned() && s.strstart > 0
    requires NoLonger(s.window[..], s.strstart, s.strstart - 1, raw)
    requires raw < MIN_MATCH || len == (if raw <= s.lookahead then raw else s.lookahead)
    ensures LongestRun(s.data, s.Cur(), s.lookahead, len)
  {
    hide WindowOk, Repeats, Agree;
    forall k: nat {:trigger Repeats(s.data, s.Cur(), 1, k)}
      | MIN_MATCH <= k <= MAX_MATCH && k <= s.lookahead && Repeats(s.data, s.Cur(), 1, k)
      ensures k <= len
    {
      RepeatsAgree(s.window[..], s.data, s.base, s.strstart + s.lookahead, s.strstart, s.strstart - 1, k);
    }
  }

  method CountSame(w: array<byte>, at: nat, prev: byte) returns (len: nat)
    requires 1 <= at && at + MAX_MATCH < w.Length && w[at - 1] == prev == w[at] == w[at + 1] == w[at + 2]
    ensures MIN_MATCH <= len <= MAX_MATCH && forall j {:trigger w[j]} :: at - 1 <= j < at + len ==> w[j] == prev
    ensures len < MAX_MATCH ==> w[at + len] != prev
  {
    len := 2;
    while true
      invariant 2 <= len < MAX_MATCH
      invariant forall j {:trigger w[j]} :: at - 1 <= j <= at + len ==> w[j] == prev
      decreases MAX_MATCH - len
    {
      len := len + 1;
      if prev != w[at + len] { break; }
      if len >= MAX_MATCH { break; }
    }
  }

  lemma SameBytes(w: seq<byte>, at: nat, len: nat, prev: byte)
    requires 1 <= at && at + len <= |w| && forall j {:trigger w[j]} :: at - 1 <= j < at + len ==> w[j] == prev
    ensures Agree(w, at, at - 1, len)
  {
  }

  method PassRun(s: DeflateState, tb: TokenBuffer) returns (full: bool)
    requires Steady(s, tb, 0) && MIN_MATCH <= s.matchLength <= MAX_MATCH && s.matchLength <= s.lookahead
    requires Repeats(s.data, s.Cur(), 1, s.matchLength)
    modifies s`strstart, s`lookahead, s`matchLength, tb`lastLit, tb.lBuf, tb.dBuf
    ensures s.Loose() && Sound(s, tb, 0) && full == (tb.lastLit == tb.litBufsize - 1)
    ensures s.Cur() == old(s.Cur()) + old(s.matchLength)
    ensures Grew(old(tb.Tokens()), tb.Tokens(), Match(1, old(s.matchLength)))
  {
    hide WindowOk, Chains, Recorded, Expand, Within, Repeats, TableSize;
    full := EmitMatch(s, tb, 1, s.matchLength, s.Cur());
    Pass(s, s.matchLength);
  }

  /** Matches reach one byte back and no further. */
  ghost predicate OnlyRuns(ts: seq<Token>) {
    forall i :: 0 <= i < |ts| && ts[i].Match? ==> ts[i].dist == 1
  }

  ghost predicate OnlyLiterals(ts: seq<Token>) {
    forall i :: 0 <= i < |ts| ==> ts[i].Literal?
  }

  /** What deflate_rle records: the longest run of the byte before, if that is worth a match, or the byte. */
  ghost predicate RunPicked(ts0: seq<Token>, ts: seq<Token>, data: seq<byte>, p: nat, at: nat, ahead: nat) {
    || (Grew(ts0, ts, Literal(TextAt(data, p))) && (at > 0 ==> LongestRun(data, p, ahead, 0)))
    || exists len: nat ::
         Grew(ts0, ts, Match(1, len)) && MIN_MATCH <= len <= MAX_MATCH && len <= ahead
         && LongestRun(data, p, ahead, len)
  }

  lemma RunPicks(ts: seq<Token>, data: seq<byte>, p: nat, at: nat, ahead: nat, len: nat)
    requires len == 0 || (MIN_MATCH <= len <= MAX_MATCH && len <= ahead)
    requires (at > 0 ==> LongestRun(data, p, ahead, len)) && (at == 0 ==> len == 0) && OnlyRuns(ts)
    ensures forall ts1: seq<Token> {:trigger RunPicked(ts, ts1, data, p, at, ahead)} {:trigger OnlyRuns(ts1)} ::
              Grew(ts, ts1, if len > 0 then Match(1, len) else Literal(TextAt(data, p))) ==>
                RunPicked(ts, ts1, data, p, at, ahead) && OnlyRuns(ts1)
  {
    hide LongestRun;
  }

  lemma LiteralMore(ts: seq<Token>, c: byte)
    requires OnlyLiterals(ts)
    ensures forall ts1: seq<Token> :: Grew(ts, ts1, Literal(c)) ==> OnlyLiterals(ts1)
  {
  }

  method RleRound(s: DeflateState, tb: TokenBuffer) returns (outFull: bool)
    requires Steady(s, tb, 0) && s.lookahead > 0 && s.strstart + MAX_MATCH < s.window.Length
    requires Quiet(tb.Reports()) && tb.Valid() && OnlyRuns(tb.Tokens())
    modifies s`strstart, s`lookahead, s`matchLength, s`blockStart, tb`lastLit, tb`flushed, tb`blocks, tb.lBuf, tb.dBuf
    ensures Steady(s, tb, 0) && s.Cur() > old(s.Cur())
    ensures Heard(outFull, tb.Reports())
    ensures RunPicked(old(tb.Tokens()), tb.Tokens(), s.data, old(s.Cur()), old(s.strstart), old(s.lookahead))
    ensures tb.Valid() && OnlyRuns(tb.Tokens())
  {
    hide WindowOk, Chains, Recorded, Expand, Within, Repeats, TableSize, Quiet, FullAtLast, Grew, LongestRun,
         OnlyRuns, RunPicked;
    ghost var ts, p, at, ahead := tb.Tokens(), s.Cur(), s.strstart, s.lookahead;
    s.matchLength := RunLengthHere(s);
    var full;
    RunPicks(ts, s.data, p, at, ahead, s.matchLength);
    if s.matchLength >= MIN_MATCH {
      full := PassRun(s, tb);
    } else {
      full := PassLiteral(s, tb);
    }
    outFull := FlushIfFull(s, tb, full);
  }

  /** deflate_rle: matches of distance one only. */
  method DeflateRle(s: DeflateState, tb: TokenBuffer, flush: FlushMode) returns (state: BlockState)
    requires Steady(s, tb, 0)
    requires Quiet(tb.Reports()) && tb.Valid() && OnlyRuns(tb.Tokens())
    modifies s, s.window, s.head, s.prev, tb, tb.lBuf, tb.dBuf
    ensures Steady(s, tb, 0) && Took(old(s.data), old(s.available), s.data, s.available)
    ensures state != NeedMore ==> AllDone(s, tb)
    ensures Told(state, flush, tb.Reports(), s.available == [] && s.lookahead < MAX_MATCH + 1)
    ensures tb.earlier == old(tb.earlier) && tb.Valid() && OnlyRuns(tb.Tokens())
  {
    hide Took, Steady, DeflateState.Hashed, Quiet, FullAtLast, Expand, Within, Recorded, RunPicked, OnlyRuns;
    TookNone(s.data, s.available);
    while true
      invariant Steady(s, tb, 0) && Took(old(s.data), old(s.available), s.data, s.available)
      invariant tb.Valid() && OnlyRuns(tb.Tokens())
      invariant Quiet(tb.Reports()) && tb.earlier == old(tb.earlier)
      decreases |s.data| + |s.available| - s.Cur()
    {
      ghost var d0, a0 := s.data, s.available;
      SteadyCur(s, tb, 0);
      var more, stop := Prepare(s, tb, flush, MAX_MATCH + 1, 0);
      TookMore(old(s.data), old(s.available), d0, a0, s.data, s.available);
      TextKept(d0, a0, s.data, s.available, s.Cur());
      if more { return NeedMore; }
      if stop { break; }
      var outFull := RleRound(s, tb);
      SteadyCur(s, tb, 0);
      if outFull { return NeedMore; }
    }
    state := EndCall(s, tb, flush, 0);
  }

  method HuffRound(s: DeflateState, tb: TokenBuffer) returns (outFull: bool)
    requires Steady(s, tb, 0) && s.lookahead > 0
    requires Quiet(tb.Reports()) && tb.Valid() && OnlyLiterals(tb.Tokens())
    modifies s`strstart, s`lookahead, s`matchLength, s`blockStart, tb`lastLit, tb`flushed, tb`blocks, tb.lBuf, tb.dBuf
    ensures Steady(s, tb, 0) && s.Cur() > old(s.Cur())
    ensures Heard(outFull, tb.Reports())
    ensures Grew(old(tb.Tokens()), tb.Tokens(), Literal(TextAt(s.data, old(s.Cur()))))
    ensures tb.Valid() && OnlyLiterals(tb.Tokens())
  {
    hide WindowOk, Chains, Recorded, Expand, Within, TableSize, Quiet, FullAtLast, Grew, OnlyLiterals;
    LiteralMore(tb.Tokens(), TextAt(s.data, s.Cur()));
    var full := PassLiteral(s, tb);
    outFull := FlushIfFull(s, tb, full);
  }

  /** deflate_huff: no matches at all. */
  method DeflateHuff(s: DeflateState, tb: TokenBuffer, flush: FlushMode) returns (state: BlockState)
    requires Steady(s, tb, 0)
    requires Quiet(tb.Reports()) && tb.Valid() && OnlyLiterals(tb.Tokens())
    modifies s, s.window, s.head, s.prev, tb, tb.lBuf, tb.dBuf
    ensures Steady(s, tb, 0) && Took(old(s.data), old(s.available), s.data, s.available)
    ensures state != NeedMore ==> AllDone(s, tb)
    ensures Told(state, flush, tb.Reports(), s.available == [] && s.lookahead < 1)
    ensures tb.earlier == old(tb.earlier) && tb.Valid() && OnlyLiterals(tb.Tokens())
  {
    hide Took, Steady, DeflateState.Hashed, Quiet, FullAtLast, Expand, Within, Recorded, Grew, OnlyLiterals;
    TookNone(s.data, s.available);
    while true
      invariant Steady(s, tb, 0) && Took(old(s.data), old(s.available), s.data, s.available)
      invariant tb.Valid() && OnlyLiterals(tb.Tokens())
      invariant Quiet(tb.Reports()) && tb.earlier == old(tb.earlier)
      decreases |s.data| + |s.available| - s.Cur()
    {
      ghost var d0, a0 := s.data, s.available;
      SteadyCur(s, tb, 0);
      var more, stop := Prepare(s, tb, flush, 1, 0);
      TookMore(old(s.data), old(s.available), d0, a0, s.data, s.available);
      TextKept(d0, a0, s.data, s.available, s.Cur());
      if more { return NeedMore; }
      if stop { break; }
      var outFull := HuffRound(s, tb);
      SteadyCur(s, tb, 0);
      if outFull { return NeedMore; }
    }
    state := EndCall(s, tb, flush, 0);
  }

  // ---- the beginning ----

  /** A fresh state and fresh buffers are where every compressor may start. */
  lemma Beginning(s: DeflateState, tb: TokenBuffer)
    requires Separate(s, tb) && s.Base() && s.data == [] && s.base == 0 && s.strstart == 0 && s.blockStart == 0
    requires tb.Valid() && tb.lastLit == 0 && tb.flushed == []
    ensures Steady(s, tb, 0) && s.Hashed()
    ensures s.prevLength == MIN_MATCH - 1 == s.matchLength && !s.matchAvailable ==> Fast(s) && Lazy(s) && Pend(s) == 0
  {
    NothingRecorded(tb.lBuf[..tb.lastLit], tb.dBuf[..tb.lastLit]);
    assert tb.Tokens() == [];
  }

  /** Everything given has been passed, recorded and handed on. */
  ghost predicate AllDone(s: DeflateState, tb: TokenBuffer)
    reads s`data, s`base, s`strstart, s`available, tb`flushed, tb`lastLit
  {
    s.available == [] && s.Cur() == |s.data| && Expand(tb.flushed) == s.data && tb.lastLit == 0
  }

  // ---- whole runs ----

  datatype Engine = FastEngine | SlowEngine | RleEngine | HuffEngine

  /** One call: input that has become available, and what is asked for. */
  datatype Call = Call(chunk: seq<byte>, flush: FlushMode)

  function InputOf(calls: seq<Call>): seq<byte> {
    if calls == [] then [] else InputOf(calls[..|calls| - 1]) + calls[|calls| - 1].chunk
  }

  /** What each compressor keeps from call to call. */
  ghost predicate Keeps(engine: Engine, s: DeflateState, tb: TokenBuffer)
    reads s, s.window, s.head, s.prev, tb, tb.lBuf, tb.dBuf
  {
    match engine
    case FastEngine => Steady(s, tb, 0) && s.Hashed() && Fast(s)
    case SlowEngine => Steady(s, tb, Pend(s)) && s.Hashed() && Lazy(s)
    case RleEngine => Steady(s, tb, 0) && tb.Valid() && OnlyRuns(tb.Tokens())
    case HuffEngine => Steady(s, tb, 0) && tb.Valid() && OnlyLiterals(tb.Tokens())
  }

  /** What a full flush finds when its block is out: nothing pends. */
  ghost predicate AtRest(engine: Engine, s: DeflateState)
    reads s`matchAvailable
  {
    engine.SlowEngine? ==> !s.matchAvailable
  }

  /** How much must lie ahead of a compressor as long as more may come. */
  function Least(engine: Engine): nat {
    match engine
    case FastEngine => MIN_LOOKAHEAD
    case SlowEngine => MIN_LOOKAHEAD
    case RleEngine => MAX_MATCH + 1
    case HuffEngine => 1
  }

  /** All input is taken, and there is too little of it ahead. */
  ghost predicate Starved(engine: Engine, s: DeflateState)
    reads s`available, s`lookahead
  {
    s.available == [] && s.lookahead < Least(engine)
  }

  /** The compressor of a level or strategy takes what it can: it stops short of the work asked for
      only when a block finds the output full, or when it may wait for more input and has none. */
  method Compress(engine: Engine, s: DeflateState, tb: TokenBuffer, flush: FlushMode) returns (state: BlockState)
    requires Keeps(engine, s, tb) && Quiet(tb.Reports())
    modifies s, s.window, s.head, s.prev, tb, tb.lBuf, tb.dBuf
    ensures Keeps(engine, s, tb) && Took(old(s.data), old(s.available), s.data, s.available)
    ensures state != NeedMore ==> AllDone(s, tb) && AtRest(engine, s)
    ensures Told(state, flush, tb.Reports(), Starved(engine, s)) && tb.earlier == old(tb.earlier)
  {
    hide Steady, DeflateState.Hashed, Fast, Lazy, Took, Quiet, FullAtLast;
    match engine
    case FastEngine => state := DeflateFast(s, tb, flush);
    case SlowEngine => state := DeflateSlow(s, tb, flush);
    case RleEngine => state := DeflateRle(s, tb, flush);
    case HuffEngine => state := DeflateHuff(s, tb, flush);
  }

  /** The end of a full flush: history is forgotten, and a new section of tokens begins, whose
      matches do not reach back over this point. */
  method BeginSection(engine: Engine, s: DeflateState, tb: TokenBuffer) returns (ghost section: seq<Token>)
    requires Keeps(engine, s, tb) && AllDone(s, tb) && AtRest(engine, s)
    modifies s`strstart, s`blockStart, s`insert, s`data, s`base, s`ins, s`top, s.head, tb`flushed
    ensures Keeps(engine, s, tb) && s.data == [] && s.available == [] && tb.flushed == [] && tb.lastLit == 0
    ensures Expand(section) == old(s.data) && Within(section, Reach(s))
  {
    hide Expand, Within, Recorded, Chains, WindowOk, Ready, TableSize, Held;
    NothingRecorded(tb.lBuf[..tb.lastLit], tb.dBuf[..tb.lastLit]);
    section := tb.flushed;
    assert tb.Tokens() == section;
    s.ForgetHistory();
    tb.flushed := [];
    Beginning(s, tb);
  }

  /** What a call before this one heard of the output is past. */
  ghost method BeginCall(engine: Engine, s: DeflateState, tb: TokenBuffer)
    requires Keeps(engine, s, tb)
    modifies tb`earlier
    ensures Keeps(engine, s, tb) && Quiet(tb.Reports()) && tb.earlier == tb.blocks
  {
    hide Expand, Within, Recorded, Chains, WindowOk, Ready, TableSize, Held;
    tb.earlier := tb.blocks;
  }

  /** One call with any flush.  After a full flush has done its work the input and the tokens
      start anew; the section it closed stands for all input since the one before. */
  method OneCall(engine: Engine, s: DeflateState, tb: TokenBuffer, flush: FlushMode)
    returns (state: BlockState, ghost section: seq<Token>)
    requires Keeps(engine, s, tb)
    modifies s, s.window, s.head, s.prev, tb, tb.lBuf, tb.dBuf
    ensures Keeps(engine, s, tb) && Within(section, Reach(s))
    ensures if state == BlockDone && flush == FullFlush
            then Expand(section) == old(s.data + s.available) && s.data == [] && AllDone(s, tb)
            else section == [] && Took(old(s.data), old(s.available), s.data, s.available)
                 && (state != NeedMore ==> AllDone(s, tb))
    ensures Told(state, flush, tb.Reports(), Starved(engine, s)) && tb.earlier == old(tb.blocks)
  {
    hide Keeps, Within, Quiet, FullAtLast;
    assert Within([], Reach(s)) && Expand([]) == [] by { NothingSpans(Reach(s)); }
    hide Expand;
    section := [];
    BeginCall(engine, s, tb);
    state := Compress(engine, s, tb, flush);
    if state == BlockDone && flush == FullFlush {
      section := BeginSection(engine, s, tb);
      assert s.Cur() == 0 by { KeptText(engine, s, tb); }
    }
  }

  lemma NothingSpans(reach: nat)
    ensures Within([], reach) && Expand([]) == []
  {
  }

  /** How much input the tokens stand for: all that has been passed, but for the byte at which
      a match is pending. */
  ghost function Passed(engine: Engine, s: DeflateState): int
    reads s`base, s`strstart, s`matchAvailable
  {
    s.Cur() - (if engine.SlowEngine? then Pend(s) else 0)
  }

  /** Any number of calls with any pieces of input and any flushes, full ones included.  The
      tokens stand for exactly the input passed, and for all input given when the last call has
      done its work.  Those recorded since the last full flush stand for the input since then by
      themselves, so that decoding may start there.  No match reaches past the window less a
      margin. */
  method Run(engine: Engine, s: DeflateState, tb: TokenBuffer, calls: seq<Call>)
    returns (last: BlockState, ghost past: seq<Token>)
    requires Keeps(engine, s, tb) && s.data == [] && s.available == []
    modifies s, s.window, s.head, s.prev, tb, tb.lBuf, tb.dBuf
    ensures Expand(past) + s.data + s.available == InputOf(calls) && 0 <= Passed(engine, s) <= |s.data|
    ensures tb.Valid() && Expand(tb.Tokens()) == s.data[..Passed(engine, s)]
    ensures Expand(past + tb.Tokens()) == Expand(past) + s.data[..Passed(engine, s)]
    ensures Within(past + tb.Tokens(), Reach(s))
    ensures calls != [] && last != NeedMore ==> Expand(past + tb.flushed) == InputOf(calls)
    ensures calls != [] ==> Told(last, calls[|calls| - 1].flush, tb.Reports(), Starved(engine, s))
    ensures calls != [] && calls[|calls| - 1].flush != NoFlush && Quiet(tb.Reports()) ==>
              Expand(past + tb.flushed) == InputOf(calls)
    ensures (forall i :: 0 <= i < |calls| ==> calls[i].flush != FullFlush) ==> past == []
    ensures engine.RleEngine? ==> OnlyRuns(tb.Tokens())
    ensures engine.HuffEngine? ==> OnlyLiterals(tb.Tokens())
  {
    NothingSpans(Reach(s));
    hide Keeps, Expand, Within, Took, Quiet, FullAtLast;
    last, past := NeedMore, [];
    for i := 0 to |calls|
      invariant Keeps(engine, s, tb) && Within(past, Reach(s))
      invariant Expand(past) + s.data + s.available == InputOf(calls[..i])
      invariant last != NeedMore ==> AllDone(s, tb)
      invariant i > 0 ==> Told(last, calls[i - 1].flush, tb.Reports(), Starved(engine, s))
      invariant past != [] ==> exists k :: 0 <= k < i && calls[k].flush == FullFlush
    {
      ghost var done, d0, a0 := Expand(past), s.data, s.available;
      Supply(engine, s, tb, calls[i].chunk);
      NextInput(calls, i, done, d0, a0);
      ghost var d1, a1, section := s.data, s.available, [];
      last, section := OneCall(engine, s, tb, calls[i].flush);
      SectionsJoin(past, section, Reach(s));
      SectionGiven(done, Expand(section), d1, a1, s.data, s.available);
      past := past + section;
    }
    assert calls[..|calls|] == calls;
    KeptText(engine, s, tb);
    SectionsJoin(past, tb.Tokens(), Reach(s));
    if last != NeedMore { AllTokens(engine, s, tb); }
    if FullAtLast(tb.Reports()) { FullIsLast(tb.Reports()); }
  }

  lemma NextInput(calls: seq<Call>, i: nat, done: seq<byte>, data: seq<byte>, available: seq<byte>)
    requires i < |calls| && done + data + available == InputOf(calls[..i])
    ensures done + data + (available + calls[i].chunk) == InputOf(calls[..i + 1])
  {
    assert calls[..i + 1][..i] == calls[..i];
  }

  /** Whether a section was closed or not, no input is lost. */
  lemma SectionGiven(done: seq<byte>, section: seq<byte>, d0: seq<byte>, a0: seq<byte>, d1: seq<byte>, a1: seq<byte>)
    requires (section == d0 + a0 && d1 == [] == a1) || (section == [] && Took(d0, a0, d1, a1))
    ensures done + section + d1 + a1 == done + d0 + a0
  {
    if section == [] && Took(d0, a0, d1, a1) {
      assert done + section + d1 + a1 == done + (d1 + a1);
    } else {
      assert done + section + [] + [] == done + section;
    }
  }

  /** When a call has done its work all tokens are in finished blocks. */
  lemma AllTokens(engine: Engine, s: DeflateState, tb: TokenBuffer)
    requires Keeps(engine, s, tb) && AllDone(s, tb)
    ensures tb.Valid() && tb.flushed == tb.Tokens() && s.data + s.available == s.data
  {
    hide Expand, Within, Chains, WindowOk, Ready, Held;
    NothingRecorded(tb.lBuf[..tb.lastLit], tb.dBuf[..tb.lastLit]);
  }

  /** The same from the state a reset leaves, for every window size, hash size and buffer size and
      whatever limits on searching a level sets. */
  method Deflate(engine: Engine, wSize: nat, hashBits: nat, litBufsize: nat, good: nat, lazy: nat, nice: nat,
                 chain: nat,
                 filtered: bool, fullAfter: nat -> bool, calls: seq<Call>)
    returns (last: BlockState, s: DeflateState, tb: TokenBuffer, ghost past: seq<Token>)
    requires 512 <= wSize <= 0x8000 && 8 <= hashBits <= 16 && litBufsize >= 2 && chain >= 4
    ensures Expand(past) + s.data + s.available == InputOf(calls) && 0 <= Passed(engine, s) <= |s.data|
    ensures tb.Valid() && Expand(tb.Tokens()) == s.data[..Passed(engine, s)]
    ensures Expand(past + tb.Tokens()) == Expand(past) + s.data[..Passed(engine, s)]
    ensures Within(past + tb.Tokens(), Reach(s)) && s.wSize == wSize
    ensures calls != [] && last != NeedMore ==> Expand(past + tb.flushed) == InputOf(calls)
    ensures calls != [] ==> Told(last, calls[|calls| - 1].flush, tb.Reports(), Starved(engine, s))
    ensures calls != [] && calls[|calls| - 1].flush != NoFlush && Quiet(tb.Reports()) ==>
              Expand(past + tb.flushed) == InputOf(calls)
    ensures calls != [] && calls[|calls| - 1].flush != NoFlush && (forall k :: !fullAfter(k)) ==>
              Expand(past + tb.flushed) == InputOf(calls)
    ensures engine.RleEngine? ==> OnlyRuns(tb.Tokens())
    ensures engine.HuffEngine? ==> OnlyLiterals(tb.Tokens())
    ensures (forall i :: 0 <= i < |calls| ==> calls[i].flush != FullFlush) ==> past == []
  {
    hide Keeps, Expand, Within, Quiet, FullAtLast;
    s := new DeflateState(wSize, hashBits, good, lazy, nice, chain, filtered);
    tb := new TokenBuffer(litBufsize, fullAfter);
    Begun(engine, s, tb);
    last, past := Run(engine, s, tb, calls);
    if forall k :: !fullAfter(k) { NeverFull(fullAfter, tb.earlier, tb.blocks); }
  }

  lemma Begun(engine: Engine, s: DeflateState, tb: TokenBuffer)
    requires Separate(s, tb) && s.Base() && s.data == [] && s.base == 0 && s.strstart == 0 && s.blockStart == 0
    requires tb.Valid() && tb.lastLit == 0 && tb.flushed == []
    requires s.prevLength == MIN_MATCH - 1 == s.matchLength && !s.matchAvailable
    ensures Keeps(engine, s, tb)
  {
    hide Steady, DeflateState.Hashed, DeflateState.Base, Fast, Lazy;
    Beginning(s, tb);
  }

  /** The caller makes more input available. */
  method Supply(engine: Engine, s: DeflateState, tb: TokenBuffer, chunk: seq<byte>)
    requires Keeps(engine, s, tb)
    modifies s`available
    ensures Keeps(engine, s, tb) && s.available == old(s.available) + chunk
  {
    hide Expand, Within, Recorded, Chains, WindowOk, Ready, Held;
    s.available := s.available + chunk;
  }

  /** With room for every block nothing is ever reported full. */
  lemma {:induction false} NeverFull(f: nat -> bool, a: nat, c: nat)
    requires forall k :: !f(k)
    ensures Quiet(Answers(f, a, c))
    decreases c
  {
    if a < c {
      NeverFull(f, a, c - 1);
      assert !f(c - 1);
    }
  }

  lemma KeptText(engine: Engine, s: DeflateState, tb: TokenBuffer)
    requires Keeps(engine, s, tb)
    ensures tb.Valid() && (engine.RleEngine? ==> OnlyRuns(tb.Tokens()))
            && (engine.HuffEngine? ==> OnlyLiterals(tb.Tokens()))
    ensures tb.Valid() && 0 <= Passed(engine, s) <= |s.data| && Expand(tb.Tokens()) == s.data[..Passed(engine, s)]
    ensures Within(tb.Tokens(), Reach(s))
  {
    hide Expand, Within, Recorded, Chains, WindowOk, Ready, Held;
  }
}
