/** The sliding window of deflate: reading input, sliding, entering strings on the hash chains,
    and searching them. */
module DeflateWindow {
  import opened Rotations
  import opened DeflateHash
  import opened DeflateChains
  import opened Lz77

  function Min(a: nat, b: nat): nat { if a < b then a else b }

  // ---- the window against the input ----

  /** The first end bytes of the window are the last of the input read. */
  ghost predicate WindowOk(w: seq<byte>, data: seq<byte>, base: nat, end: nat) {
    end <= |w| && base + end == |data| && w[..end] == data[base..]
  }

  lemma WindowAt(w: seq<byte>, data: seq<byte>, base: nat, end: nat, i: nat)
    requires WindowOk(w, data, base, end) && i < end
    ensures i < |w| && base + i < |data| && w[i] == data[base + i]
  {
    assert w[..end][i] == data[base..][i];
  }

  lemma WindowSlid(w: seq<byte>, w1: seq<byte>, data: seq<byte>, base: nat, end: nat, n: nat)
    requires WindowOk(w, data, base, end) && n <= end <= 2 * n == |w| == |w1|
    requires forall i {:trigger w1[i]} :: 0 <= i < n ==> w1[i] == w[i + n]
    ensures WindowOk(w1, data, base + n, end - n)
  {
    var u, v := w1[..end - n], data[base + n..];
    forall i | 0 <= i < end - n ensures u[i] == v[i] {
      WindowAt(w, data, base, end, i + n);
      assert w1[i] == w[i + n];
    }
  }

  lemma WindowRead(w: seq<byte>, w1: seq<byte>, data: seq<byte>, base: nat, end: nat, chunk: seq<byte>)
    requires WindowOk(w, data, base, end) && |w1| == |w| && end + |chunk| <= |w|
    requires w1[..end] == w[..end] && w1[end..end + |chunk|] == chunk
    ensures WindowOk(w1, data + chunk, base, end + |chunk|)
  {
    assert w1[..end + |chunk|] == w1[..end] + w1[end..end + |chunk|];
    assert (data + chunk)[base..] == data[base..] + chunk;
  }

  lemma WindowKept(w: seq<byte>, w1: seq<byte>, data: seq<byte>, base: nat, end: nat)
    requires WindowOk(w, data, base, end) && |w1| == |w| && w1[..end] == w[..end]
    ensures WindowOk(w1, data, base, end)
  {
  }

  /** Equal bytes in the window are a repetition in the input. */
  lemma WindowRepeats(w: seq<byte>, data: seq<byte>, base: nat, end: nat, scan: nat, from: nat, len: nat)
    requires WindowOk(w, data, base, end) && from < scan && scan + len <= end
    requires w[scan..scan + len] == w[from..from + len]
    ensures Repeats(data, base + scan, scan - from, len)
  {
    var dist := scan - from;
    forall k {:trigger Echoes(data, dist, k)} | base + scan <= k < base + scan + len ensures Echoes(data, dist, k) {
      var j := k - base - scan;
      WindowAt(w, data, base, end, scan + j);
      WindowAt(w, data, base, end, from + j);
      assert w[scan..scan + len][j] == w[from..from + len][j];
    }
  }

  /** The running hash is ready for the string at p, wherever a whole string is there. */
  ghost predicate Ready(bits: nat, insH: bv32, data: seq<byte>, p: nat) {
    8 <= bits <= 16 && (p + 3 <= |data| ==> UpdateHash(ParamsFor(bits), insH, data[p + 2]) == HashAt(bits, data, p))
  }

  lemma ReadyNext(bits: nat, insH: bv32, data: seq<byte>, p: nat)
    requires 8 <= bits <= 16 && p + 3 <= |data| && insH == HashAt(bits, data, p)
    ensures Ready(bits, insH, data, p + 1)
  {
    hide UpdateHash, HashAt, ParamsFor;
    if p + 4 <= |data| { RollNext(bits, data, p); }
  }

  /** The byte that completes the string at p gives the index of its chain. */
  lemma ReadyIndex(bits: nat, insH: bv32, data: seq<byte>, p: nat)
    requires p + 3 <= |data| && Ready(bits, insH, data, p)
    ensures var h := UpdateHash(ParamsFor(bits), insH, data[p + 2]);
            h as int == Slot(bits, data, p) < TableSize(bits) && Ready(bits, h, data, p + 1)
  {
    hide UpdateHash, HashAt, ParamsFor, TableSize;
    ReadyNext(bits, HashAt(bits, data, p), data, p);
  }

  lemma ReadyFresh(bits: nat, data: seq<byte>, p: nat)
    requires 8 <= bits <= 16 && p + 2 <= |data|
    ensures Ready(bits, UpdateHash(ParamsFor(bits), ByteWord(data[p]), data[p + 1]), data, p)
  {
    hide UpdateHash, ParamsFor, ByteWord;
    if p + 3 <= |data| { RollStart(bits, data[p], data[p + 1], data[p + 2]); }
  }

  class DeflateState {
    const wSize: nat
    const hashBits: nat
    const window: array<byte>
    const head: array<nat>
    const prev: array<nat>
    const maxChainLength: nat
    const goodMatch: nat
    const niceLength: nat
    const maxLazyMatch: nat
    const filtered: bool
    /** input not yet taken */
    var available: seq<byte>
    var insH: bv32
    var strstart: nat
    var lookahead: nat
    var matchStart: int
    var matchLength: nat
    var prevLength: nat
    var insert: nat
    var prevMatch: int
    var matchAvailable: bool
    var highWater: nat
    var blockStart: int
    /** all input taken */
    ghost var data: seq<byte>
    /** position in data of the window's first byte */
    ghost var base: nat
    /** positions that have been put on hash chains, and a bound for them */
    ghost var ins: set<nat>
    ghost var top: nat

    ghost predicate Sized() {
      && 512 <= wSize <= 0x8000 && window.Length == 2 * wSize && prev.Length == wSize && 8 <= hashBits <= 16
      && head.Length == TableSize(hashBits) && head != prev && window as object != head && window as object != prev
      && maxChainLength >= 4
    }

    function MaxDist(): nat
      requires wSize >= 512
    {
      wSize - MIN_LOOKAHEAD
    }

    ghost function Cur(): nat
      reads `base, `strstart
    {
      base + strstart
    }

    /** The window holds the end of the input. */
    ghost predicate Holding()
      reads `data, `base, window
    {
      base <= |data| && WindowOk(window[..], data, base, |data| - base)
    }

    /** The lookahead is what has been read and not yet passed. */
    ghost predicate Spanned()
      reads `data, `base, `strstart, `lookahead
    {
      base + strstart + lookahead == |data|
    }

    ghost predicate Chained()
      reads `data, `base, `ins, `top, head, prev
    {
      Chains(hashBits, data, ins, base, top, head[..], prev[..])
    }

    /** Strings are entered in order, and the next one to enter is insert places back. */
    ghost predicate Ordered()
      reads `insert, `strstart, `top, `base, `data
    {
      && insert <= strstart && insert < MIN_MATCH && top + insert <= Cur()
      && (top == 0 || top + 2 <= |data|)
    }

    ghost predicate Hashed()
      reads `lookahead, `insert, `insH, `data, `base, `strstart
    {
      lookahead >= MIN_MATCH ==> insert == 0 && Ready(hashBits, insH, data, Cur())
    }

    /** Everything but the running hash. */
    ghost predicate Loose()
      reads this, window, head, prev
    {
      Sized() && Holding() && Spanned() && Chained() && Ordered()
    }

    ghost predicate Base()
      reads this, window, head, prev
    {
      Loose() && Hashed()
    }

    /** lm_init: empty tables, no input yet. */
    constructor (wSize: nat, hashBits: nat, good: nat, lazy: nat, nice: nat, chain: nat, filtered: bool)
      requires 512 <= wSize <= 0x8000 && 8 <= hashBits <= 16 && chain >= 4
      ensures Base() && data == [] && base == 0 && strstart == 0 && blockStart == 0 && available == []
      ensures prevLength == MIN_MATCH - 1 == matchLength && !matchAvailable
      ensures fresh(window) && fresh(head) && fresh(prev) && this.wSize == wSize
    {
      hide TableSize;
      this.wSize, this.hashBits, this.filtered := wSize, hashBits, filtered;
      maxChainLength, goodMatch, niceLength, maxLazyMatch := chain, good, nice, lazy;
      window, head, prev := new byte[2 * wSize], new nat[TableSize(hashBits)](_ => 0), new nat[wSize];
      available, insH, strstart, lookahead, matchStart, insert, highWater, blockStart := [], 0, 0, 0, 0, 0, 0, 0;
      matchLength, prevLength, prevMatch, matchAvailable := MIN_MATCH - 1, MIN_MATCH - 1, 0, false;
      data, base, ins, top := [], 0, {}, 0;
      new;
      assert window[..][..0] == data[base..];
      NoChains(hashBits, head[..], prev[..]);
    }

    // ---- forgetting ----

    /** CLEAR_HASH. */
    method ClearHash()
      requires Loose()
      modifies head, `ins, `top
      ensures Loose() && ins == {} && top == 0 && (old(Hashed()) ==> Hashed())
      ensures forall k :: 0 <= k < head.Length ==> head[k] == 0
    {
      hide WindowOk, Ready, TableSize, Chains;
      ghost var p0 := prev[..];
      ChainsSized(hashBits, data, ins, base, top, head[..], p0);
      for i := 0 to head.Length
        invariant forall k :: 0 <= k < i ==> head[k] == 0
      {
        head[i] := 0;
      }
      ins, top := {}, 0;
      Forgotten(hashBits, data, base, head[..], prev[..]);
    }

    /** What a full flush does after its block: all history is forgotten, and with nothing ahead
        the window is used from its beginning again.  For the ghost state the input starts anew. */
    method ForgetHistory()
      requires Base()
      modifies head, `ins, `top, `strstart, `blockStart, `insert, `data, `base
      ensures Base() && lookahead == old(lookahead)
      ensures lookahead == 0 ==> data == [] && base == 0 && strstart == 0 && blockStart == 0
      ensures lookahead > 0 ==> data == old(data) && Cur() == old(Cur()) && strstart == old(strstart) && ins == {}
    {
      hide Chains, TableSize, Ready;
      ClearHash();
      if lookahead == 0 {
        strstart := 0;
        blockStart := 0;
        insert := 0;
        data, base := [], 0;
        assert window[..][..0] == data[base..];
        Forgotten(hashBits, data, base, head[..], prev[..]);
      }
    }

    // ---- sliding and reading ----

    /** The upper half moves to the lower half, and everything that names a place in the window
        with it. */
    method Slide()
      requires Loose() && strstart >= wSize + MaxDist()
      modifies `matchStart, `strstart, `blockStart, `base, window, head, prev
      ensures Loose() && (old(Hashed()) ==> Hashed()) && strstart == old(strstart) - wSize && base == old(base) + wSize
      ensures base + matchStart == old(base + matchStart) && base + blockStart == old(base + blockStart)
    {
      hide WindowOk, Chains, Ready, TableSize;
      ghost var w0, h0, p0 := window[..], head[..], prev[..];
      EndInWindow();
      CopyDown();
      matchStart := matchStart - wSize;
      blockStart := blockStart - wSize;
      SlideTable(head);
      SlideTable(prev);
      WindowSlid(w0, window[..], data, base, strstart + lookahead, wSize);
      Slid(hashBits, data, ins, base, top, h0, p0, head[..], prev[..]);
      strstart := strstart - wSize;
      base := base + wSize;
    }

    method CopyDown()
      requires window.Length == 2 * wSize
      modifies window
      ensures forall k {:trigger window[..][k]} :: 0 <= k < wSize ==> window[..][k] == old(window[..])[k + wSize]
    {
      ghost var w0 := window[..];
      for i := 0 to wSize
        invariant forall k {:trigger window[k]} :: 0 <= k < i ==> window[k] == w0[k + wSize]
        invariant forall k {:trigger window[k]} :: i <= k < window.Length ==> window[k] == w0[k]
      {
        window[i] := window[i + wSize];
      }
    }

    lemma EndInWindow()
      requires Sized() && Holding() && Spanned()
      ensures strstart + lookahead <= 2 * wSize && |data| - base == strstart + lookahead
    {
    }

    method SlideTable(t: array<nat>)
      modifies t
      ensures forall i {:trigger t[..][i]} :: 0 <= i < t.Length ==> t[..][i] == SlidePos(old(t[..])[i], wSize)
    {
      ghost var t0 := t[..];
      var n := t.Length;
      while n > 0
        invariant 0 <= n <= t.Length
        invariant forall i {:trigger t[i]} :: 0 <= i < t.Length ==>
                    t[i] == if i < n then t0[i] else SlidePos(t0[i], wSize)
      {
        n := n - 1;
        var m := t[n];
        t[n] := if m >= wSize then m - wSize else 0;
      }
    }

    /** Takes as much input as there is room for. */
    method ReadBuf(more: nat) returns (n: nat)
      requires Sized() && Holding() && Spanned() && Chained() && strstart + lookahead + more <= 2 * wSize
      modifies `available, `lookahead, `data, window
      ensures Holding() && Spanned() && Chained()
      ensures n == Min(more, |old(available)|) && lookahead == old(lookahead) + n
      ensures data + available == old(data) + old(available) && |available| == |old(available)| - n
      ensures old(data) <= data
    {
      hide WindowOk, Chains;
      n := |available|;
      if n > more { n := more; }
      var at := strstart + lookahead;
      ghost var w0 := window[..];
      for i := 0 to n
        modifies window
        invariant forall k {:trigger window[k]} :: 0 <= k < at ==> window[k] == w0[k]
        invariant forall k {:trigger window[k]} :: at <= k < at + i ==> window[k] == available[k - at]
      {
        window[at + i] := available[i];
      }
      ghost var chunk := available[..n];
      assert available == chunk + available[n..];
      assert window[..][..at] == w0[..at];
      assert window[..][at..at + n] == chunk;
      WindowRead(w0, window[..], data, base, at, chunk);
      MoreInput(hashBits, data, chunk, ins, base, top, head[..], prev[..]);
      available := available[n..];
      lookahead := lookahead + n;
      data := data + chunk;
    }

    /** INSERT_STRING: the string at str goes on its chain, whose former head is returned. */
    method InsertString(str: nat) returns (matchHead: nat)
      requires Sized() && Holding() && Chained() && base + str >= top && base + str + MIN_MATCH <= |data|
      requires Ready(hashBits, insH, data, base + str)
      modifies `insH, `ins, `top, head, prev
      ensures Chained() && top == base + str + 1 && base + str + 3 <= |data|
      ensures Ready(hashBits, insH, data, base + str + 1)
      ensures matchHead != 0 ==>
                matchHead < str && OnChain(hashBits, data, ins, base + matchHead, Slot(hashBits, data, base + str))
      ensures Slot(hashBits, data, base + str) < head.Length
              && matchHead == old(head[..])[Slot(hashBits, data, base + str)]
      ensures head[..] == old(head[..])[Slot(hashBits, data, base + str) := str] && ins == old(ins) + {base + str}
      ensures prev.Length == wSize > 0 && prev[..] == old(prev[..])[str % prev.Length := matchHead]
    {
      hide WindowOk, TableSize, HashAt, UpdateHash, ParamsFor, Ready, Slot, Chains, OnChain;
      ghost var q := base + str;
      InData(str);
      WindowAt(window[..], data, base, |data| - base, str + 2);
      ReadyIndex(hashBits, insH, data, q);
      insH := UpdateHash(ParamsFor(hashBits), insH, window[str + 2]);
      ghost var h0, p0 := head[..], prev[..];
      Inserted(hashBits, data, ins, base, top, h0, p0, str);
      matchHead := head[insH as int];
      HeadNamed(hashBits, data, ins, base, top, h0, p0, str, insH as int);
      ghost var slot := insH as int;
      prev[str % wSize] := matchHead;
      head[insH as int] := str;
      ins := ins + {q};
      top := q + 1;
      assert head[..] == h0[insH as int := str] && prev[..] == p0[str % wSize := matchHead];
    }

    lemma InData(str: nat)
      requires Holding() && base + str + MIN_MATCH <= |data|
      ensures base <= |data| && str + 3 <= |data| - base <= window.Length
    {
    }

    /** Starts the running hash afresh, and enters the strings left over from before this input. */
    method Reinsert()
      requires Sized() && Holding() && Spanned() && Chained() && Ordered() && lookahead + insert >= MIN_MATCH
      modifies `insH, `insert, `ins, `top, head, prev
      ensures Chained() && Ordered() && Hashed()
    {
      hide WindowOk, Chains, Ready, UpdateHash, ByteWord, ParamsFor, TableSize, OnChain, Slot;
      var str := strstart - insert;
      InData(str);
      WindowAt(window[..], data, base, |data| - base, str);
      WindowAt(window[..], data, base, |data| - base, str + 1);
      ReadyFresh(hashBits, data, base + str);
      insH := ByteWord(window[str]);
      insH := UpdateHash(ParamsFor(hashBits), insH, window[str + 1]);
      while insert > 0
        invariant Chained() && Ordered() && str == strstart - insert && lookahead + insert >= MIN_MATCH
        invariant Ready(hashBits, insH, data, base + str)
      {
        var former := InsertString(str);
        str := str + 1;
        insert := insert - 1;
        if lookahead + insert < MIN_MATCH { break; }
      }
    }

    /** Reads, and prepares the hash for what can now be hashed. */
    method ReadAndHash(more: nat)
      requires Loose() && strstart + lookahead + more <= 2 * wSize && more > 0 && available != []
      modifies `available, `lookahead, `data, `insH, `insert, `ins, `top, window, head, prev
      ensures Base() && data + available == old(data) + old(available) && old(data) <= data
      ensures lookahead > old(lookahead) && |available| < |old(available)|
    {
      hide WindowOk, Chains, Ready, TableSize;
      var n := ReadBuf(more);
      if lookahead + insert >= MIN_MATCH { Reinsert(); }
    }

    /** Clears the bytes that a search may look at past the end of the input. */
    method ZeroAhead()
      requires Sized() && Holding() && Spanned()
      modifies `highWater, window
      ensures Holding()
    {
      hide WindowOk;
      EndInWindow();
      var windowSize := 2 * wSize;
      if highWater < windowSize {
        var curr := strstart + lookahead;
        if highWater < curr {
          var init := windowSize - curr;
          if init > MAX_MATCH { init := MAX_MATCH; }
          ClearFrom(curr, init);
          highWater := curr + init;
        } else if highWater < curr + MAX_MATCH {
          var init := curr + MAX_MATCH - highWater;
          if init > windowSize - highWater { init := windowSize - highWater; }
          ClearFrom(highWater, init);
          highWater := highWater + init;
        }
      }
    }

    method ClearFrom(at: nat, n: nat)
      requires Sized() && Holding() && Spanned() && strstart + lookahead <= at && at + n <= window.Length
      modifies window
      ensures Holding()
    {
      hide WindowOk;
      ghost var w0 := window[..];
      EndInWindow();
      for i := at to at + n
        invariant window[..][..strstart + lookahead] == w0[..strstart + lookahead]
      {
        window[i] := 0;
      }
      WindowKept(w0, window[..], data, base, strstart + lookahead);
    }

    /** Fills the window: after it there is lookahead enough, or no input left, and room to
        search.  Sliding moves no position, counted from the start of the input. */
    method FillWindow()
      requires Loose() && lookahead < MIN_LOOKAHEAD
      modifies `available, `insH, `strstart, `lookahead, `matchStart, `insert, `highWater, `blockStart
      modifies `data, `base, `ins, `top, window, head, prev
      ensures Loose() && (old(Hashed()) ==> Hashed())
      ensures Cur() == old(Cur()) && base + matchStart == old(base + matchStart) && (old(strstart) > 0 ==> strstart > 0)
      ensures base + blockStart == old(base + blockStart)
      ensures data + available == old(data) + old(available) && old(data) <= data && lookahead >= old(lookahead)
      ensures old(available) != [] ==> lookahead > old(lookahead)
      ensures lookahead >= MIN_LOOKAHEAD || available == []
      ensures strstart < wSize + MaxDist()
    {
      hide WindowOk, Chains, Ready, TableSize;
      while true
        invariant Loose() && (old(Hashed()) ==> Hashed()) && lookahead < MIN_LOOKAHEAD
        invariant Cur() == old(Cur()) && base + matchStart == old(base + matchStart)
                  && (old(strstart) > 0 ==> strstart > 0)
        invariant base + blockStart == old(base + blockStart)
        invariant data + available == old(data) + old(available) && old(data) <= data
        invariant lookahead >= old(lookahead)
                  && (old(available) != [] ==> lookahead > old(lookahead) || available == old(available))
        decreases |available|
      {
        EndInWindow();
        var more := 2 * wSize - lookahead - strstart;
        if strstart >= wSize + MaxDist() {
          Slide();
          more := more + wSize;
        }
        if |available| == 0 { break; }
        assert more >= 2;
        ReadAndHash(more);
        if !(lookahead < MIN_LOOKAHEAD && |available| != 0) { break; }
      }
      ZeroAhead();
    }
  }

  lemma HeadNamed(bits: nat, data: seq<byte>, ins: set<nat>, base: nat, top: nat, head: seq<nat>, prev: seq<nat>,
                  str: nat, i: nat)
    requires Chains(bits, data, ins, base, top, head, prev) && i < |head| && base + str >= top
    ensures |prev| > 0
    ensures head[i] != 0 ==> head[i] < str && OnChain(bits, data, ins + {base + str}, base + head[i], i)
  {
    hide Slot;
    if head[i] != 0 { assert OnChain(bits, data, ins, base + head[i], i); }
  }
}
