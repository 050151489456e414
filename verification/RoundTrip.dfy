/** The compressor's tokens and the inflaters' output: what one side records, the other turns back
    into the input, whatever code carries the tokens from one to the other. */
module RoundTrip {
  import opened Rotations
  import opened Lz77
  import opened InflateFormat
  import opened LowBits
  import opened Powers
  import opened BitReservoir
  import opened InflateSymbols
  import opened InflateFast
  import opened InflateBack

  /** Started on nothing, the inflaters see the distances the compressor counted. */
  lemma {:induction false} WithinIsNear(ts: seq<Token>, reach: nat, size: nat)
    requires Within(ts, reach) && reach <= size
    ensures Near([], size, ts)
    decreases |ts|
  {
    if ts != [] {
      WithinIsNear(ts[..|ts| - 1], reach, size);
      ReplayIsExpand(ts[..|ts| - 1]);
    }
  }

  /** Tokens that stand for data and keep within the compressor's reach, once read back by an inflater
      with a window at least that large, leave data as its whole output. */
  lemma InflatedIsData(ts: seq<Token>, data: seq<byte>, reach: nat, size: nat, output: seq<byte>)
    requires Expand(ts) == data && Within(ts, reach) && reach <= size
    requires Grew([], size, ts, output)
    ensures output == data
  {
    WithinIsNear(ts, reach, size);
    ReplayIsExpand(ts);
  }

  /** Bits that carry the tokens of data up to the end of a block carry those of nothing else: any
      reader that goes on as long as there are symbols ends with data. */
  lemma BitsCarryData(t: Tables, v: nat, n: nat, ts: seq<Token>, m: nat, us: seq<Token>, data: seq<byte>, reach: nat,
                      size: nat,
                      output: seq<byte>)
    requires Usable(t) && Reads(t, v, ts, n) && Next(t, High(v, n)).BlockEnd?
    requires Expand(ts) == data && Within(ts, reach) && reach <= size
    requires Reads(t, v, us, m) && !Next(t, High(v, m)).Found? && Grew([], size, us, output)
    ensures us == ts && m == n && output == data
  {
    BlockSettled(t, v, ts, n, us, m);
    InflatedIsData(ts, data, reach, size, output);
  }

  // ---- a whole block through the call-back inflater ----

  /** The bits from v on are the symbols ts, all near, and the end of the block, and all of them
      are in the input. */
  ghost predicate Carries(t: Tables, v: nat, ts: seq<Token>, n: nat, text: seq<byte>, size: nat, at: nat, total: nat) {
    && Usable(t) && Reads(t, v, ts, n) && Next(t, High(v, n)).BlockEnd? && Near(text, size, ts)
    && at + n + Taken(Next(t, High(v, n))) <= total
  }

  lemma NextNear(text: seq<byte>, size: nat, ts: seq<Token>, k: nat)
    requires Near(text, size, ts) && k < |ts|
    ensures Near(text, size, ts[..k]) && (ts[k].Match? ==> ts[k].dist <= Least(|Replay(text, ts[..k])|, size))
  {
    NearPrefix(text, size, ts, k);
    NearPrefix(text, size, ts, k + 1);
    assert ts[..k + 1] == ts[..k] + [ts[k]];
    NearNext(text, size, ts[..k], ts[k]);
  }

  /** No code is bad, and no distance too far. */
  lemma NoFault(t: Tables, v: nat, ts: seq<Token>, n: nat, text: seq<byte>, size: nat, start: nat, total: nat,
                us: seq<Token>, m: nat, fault: Fault, reach: nat, at: nat, w: nat, now: seq<byte>)
    requires Carries(t, v, ts, n, text, size, start, total) && Grew(text, size, us, now) && reach == Least(|now|, size)
    ensures !Progress(t, v, us, m, BAD(fault), reach, start, at, w)
  {
    hide Usable, Next, High, Low, Pow2;
    if Progress(t, v, us, m, BAD(fault), reach, start, at, w) {
      ReadsPrefix(t, v, ts, n, us, m);
      if |us| < |ts| {
        NextNear(text, size, ts, |us|);
      }
    }
  }

  /** The input does not run out. */
  lemma NotStarved(t: Tables, v: nat, ts: seq<Token>, n: nat, text: seq<byte>, size: nat, start: nat, total: nat,
                   us: seq<Token>, m: nat)
    requires Carries(t, v, ts, n, text, size, start, total) && Reads(t, v, us, m)
    ensures Proper(Next(t, High(v, m))) && start + m + Taken(Next(t, High(v, m))) <= total
  {
    hide Usable, High, Low, Pow2;
    ReadsPrefix(t, v, ts, n, us, m);
  }

  /** What the end of the block is found after. */
  lemma AllRead(t: Tables, v: nat, ts: seq<Token>, n: nat, text: seq<byte>, size: nat, start: nat, total: nat,
                us: seq<Token>, m: nat, reach: nat, at: nat, w: nat, now: seq<byte>)
    requires Carries(t, v, ts, n, text, size, start, total) && Grew(text, size, us, now)
    requires Progress(t, v, us, m, TYPE, reach, start, at, w)
    ensures us == ts && m == n && now == Replay(text, ts) && at == start + n + Taken(Next(t, High(v, n)))
  {
    hide Usable, Next, High, Low, Pow2;
    BlockSettled(t, v, ts, n, us, m);
  }

  /** A block of near symbols is decoded to its end, whatever mix of fast stretches and single
      symbols is taken: no fault is found, the text grows by what the symbols stand for, and the
      bits used are those of the block. */
  method InflateBlock(st: BackState, src: Reservoir, t: Tables, ghost v: nat, ghost ts: seq<Token>, ghost n: nat,
                      ghost text: seq<byte>)
    returns (r: Result)
    requires src.Valid() && src.bits < 8 && src.Ahead() == v && st.Valid() && st.Text() == text
    requires Carries(t, v, ts, n, text, st.window.Length, src.At(), 8 * |src.input|)
    modifies st, st.window, src
    ensures st.Valid() && src.Valid() && src.bits < 8 && r == BlockDone && st.Text() == Replay(text, ts)
    ensures src.At() == old(src.At()) + n + Taken(Next(t, High(v, n)))
  {
    hide Reservoir.Valid, Reservoir.At, Reservoir.Ahead, BackState.Valid;
    hide Usable, Next, High, Low, Pow2, Progress, Reads, Near, Replay, Grew;
    ghost var start, size, total := src.At(), st.window.Length, 8 * |src.input|;
    ghost var us, m, loose;
    r, us, m, loose := DecodeBlock(st, src, t, true, v);
    st.PutFits();
    match r {
      case BlockDone =>
        AllRead(t, v, ts, n, text, size, start, total, us, m, st.Reach(), src.At(), src.Ahead(), st.Text());
      case DataError(fault) =>
        NoFault(t, v, ts, n, text, size, start, total, us, m, fault, st.Reach(), src.At(), src.Ahead(), st.Text());
        assert false;
      case BufError =>
        NotStarved(t, v, ts, n, text, size, start, total, us, m);
        assert false;
    }
  }

  /** Bits that carry the tokens the compressor recorded for data, decoded from an empty text by an
      inflater with a window as large as the compressor's, leave data. */
  method InflateData(st: BackState, src: Reservoir, t: Tables, ghost v: nat, ghost ts: seq<Token>, ghost n: nat,
                     ghost data: seq<byte>,
                     ghost reach: nat)
    returns (r: Result)
    requires Usable(t) && src.Valid() && src.bits < 8 && src.Ahead() == v && st.Valid() && st.Text() == []
    requires Reads(t, v, ts, n) && Next(t, High(v, n)).BlockEnd?
    requires src.At() + n + Taken(Next(t, High(v, n))) <= 8 * |src.input|
    requires Expand(ts) == data && Within(ts, reach) && reach <= st.window.Length
    modifies st, st.window, src
    ensures r == BlockDone && st.Valid() && src.Valid() && st.Text() == data
    ensures src.At() == old(src.At()) + n + Taken(Next(t, High(v, n)))
  {
    hide Next, High, Low, Pow2, Usable, Reads, Near, Replay, Within, Expand;
    WithinIsNear(ts, reach, st.window.Length);
    ReplayIsExpand(ts);
    r := InflateBlock(st, src, t, v, ts, n, []);
  }
}
