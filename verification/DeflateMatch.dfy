/** The search for the longest match along a hash chain.  The third byte is never compared. */
module DeflateMatch {
  import opened Rotations
  import opened DeflateHash
  import opened DeflateChains
  import opened DeflateWindow
  import opened Lz77

  /** Bytes scan.. and m.. of the window agree over len. */
  ghost predicate Agree(w: seq<byte>, scan: nat, m: nat, len: nat) {
    scan + len <= |w| && m <= scan && w[scan..scan + len] == w[m..m + len]
  }

  lemma AgreeMore(w: seq<byte>, scan: nat, m: nat, len: nat)
    requires Agree(w, scan, m, len) && scan + len < |w| && w[scan + len] == w[m + len]
    ensures Agree(w, scan, m, len + 1)
  {
    assert w[scan..scan + (len + 1)] == w[scan..scan + len] + [w[scan + len]];
    assert w[m..m + (len + 1)] == w[m..m + len] + [w[m + len]];
  }

  /** No longer stretch agrees, up to the longest match. */
  ghost predicate NoLonger(w: seq<byte>, scan: nat, m: nat, len: nat) {
    forall k: nat :: k <= MAX_MATCH && Agree(w, scan, m, k) ==> k <= len
  }

  lemma Differs(w: seq<byte>, scan: nat, m: nat, d: nat, len: nat)
    requires d <= len && scan + d < |w| && m <= scan && w[m + d] != w[scan + d]
    ensures NoLonger(w, scan, m, len)
  {
    forall k: nat | k <= MAX_MATCH && Agree(w, scan, m, k) ensures k <= len {
      if k > len { AgreeAt(w, scan, m, k, d); }
    }
  }

  lemma AgreeAt(w: seq<byte>, scan: nat, m: nat, len: nat, d: nat)
    requires Agree(w, scan, m, len) && d < len
    ensures scan + d < |w| && m + d < |w| && w[scan + d] == w[m + d]
  {
    assert w[scan..scan + len][d] == w[m..m + len][d];
  }

  lemma AllAgree(w: seq<byte>, scan: nat, m: nat, len: nat)
    requires len >= MAX_MATCH
    ensures NoLonger(w, scan, m, len)
  {
  }

  lemma NoLongerMore(w: seq<byte>, scan: nat, m: nat, len: nat, more: nat)
    requires NoLonger(w, scan, m, len) && len <= more
    ensures NoLonger(w, scan, m, more)
  {
  }

  /** Compares from the fourth byte on, in steps whose number divides the longest match. */
  method CompareRun(w: array<byte>, scan: nat, m: nat) returns (len: nat)
    requires m < scan && scan + MAX_MATCH < w.Length && Agree(w[..], scan, m, MIN_MATCH)
    ensures MIN_MATCH <= len <= MAX_MATCH && Agree(w[..], scan, m, len)
    ensures NoLonger(w[..], scan, m, len)
  {
    hide Agree, NoLonger;
    len := 2;
    while true
      invariant 2 <= len < MAX_MATCH && Agree(w[..], scan, m, len + 1)
      decreases MAX_MATCH - len
    {
      len := len + 1;
      if w[scan + len] != w[m + len] {
        Differs(w[..], scan, m, len, len);
        break;
      }
      AgreeMore(w[..], scan, m, len);
      if len >= MAX_MATCH {
        AllAgree(w[..], scan, m, len);
        break;
      }
    }
  }

  /** The strings on one chain agree in three bytes when they agree in two. */
  lemma ThirdFollows(bits: nat, w: seq<byte>, data: seq<byte>, ins: set<nat>, base: nat, end: nat, scan: nat, m: nat)
    requires WindowOk(w, data, base, end) && m < scan && scan + MIN_MATCH <= end && 8 <= bits <= 16
    requires base + scan + 3 <= |data| && OnChain(bits, data, ins, base + m, Slot(bits, data, base + scan))
    requires w[m] == w[scan] && w[m + 1] == w[scan + 1]
    ensures Agree(w, scan, m, MIN_MATCH)
  {
    hide Slot;
    WindowAt(w, data, base, end, scan);
    WindowAt(w, data, base, end, scan + 1);
    WindowAt(w, data, base, end, scan + 2);
    WindowAt(w, data, base, end, m);
    WindowAt(w, data, base, end, m + 1);
    WindowAt(w, data, base, end, m + 2);
    SameChainThirdByte(bits, data, base + scan, base + m);
    assert w[scan..scan + 3] == [w[scan], w[scan + 1], w[scan + 2]];
    assert w[m..m + 3] == [w[m], w[m + 1], w[m + 2]];
  }

  /** A match of length r at the current string. */
  ghost predicate Found(s: DeflateState, r: nat)
    reads s`matchStart, s`strstart, s`base, s`data
  {
    && s.wSize >= 512 && 0 < s.matchStart < s.strstart && s.strstart - s.matchStart <= s.MaxDist()
    && r <= MAX_MATCH && Repeats(s.data, s.Cur(), s.strstart - s.matchStart, r)
  }

  /** What the search may rely on: cur is an earlier string on the chain of the current one,
      and not too far back. */
  ghost predicate Candidate(s: DeflateState, cur: nat)
    reads s`strstart, s`base, s`data, s`ins
  {
    && s.wSize >= 512 && 0 < cur < s.strstart && s.strstart - cur <= s.MaxDist()
    && 8 <= s.hashBits <= 16 && s.Cur() + 3 <= |s.data|
    && OnChain(s.hashBits, s.data, s.ins, s.base + cur, Slot(s.hashBits, s.data, s.Cur()))
  }

  /** What holds all through a search, of window and links w and prev. */
  ghost predicate Searchable(s: DeflateState, w: seq<byte>, prev: seq<nat>)
    reads s`data, s`base, s`strstart, s`lookahead, s`ins, s`top, s.window, s.head, s.prev
  {
    SearchState(s) && w == s.window[..] && prev == s.prev[..] && |prev| > 0
  }

  ghost predicate SearchState(s: DeflateState)
    reads s`data, s`base, s`strstart, s`lookahead, s`ins, s`top, s.window, s.head, s.prev
  {
    && s.Sized() && s.Holding() && s.Spanned() && s.Chained() && s.top <= s.Cur() + 1
    && s.strstart + MAX_MATCH < s.window.Length && s.lookahead >= MIN_MATCH
  }

  lemma CandidateSays(s: DeflateState, cur: nat)
    requires Candidate(s, cur)
    ensures s.wSize >= 512 && 0 < cur < s.strstart && s.strstart - cur <= s.MaxDist()
  {
  }

  // ---- how far a search goes ----

  /** The strings that a search from cur on looks at: along the links, above limit, and no more of them
      than chain. */
  ghost function Visited(prev: seq<nat>, cur: nat, limit: nat, chain: nat): (ms: seq<nat>)
    requires |prev| > 0
    ensures cur in ms
    decreases chain
  {
    var next := prev[cur % |prev|];
    [cur] + if next > limit && chain > 1 then Visited(prev, next, limit, chain - 1) else []
  }

  lemma VisitedNext(prev: seq<nat>, cur: nat, limit: nat, chain: nat)
    requires |prev| > 0
    ensures var next := prev[cur % |prev|];
            Visited(prev, cur, limit, chain) ==
            if next > limit && chain > 1 then [cur] + Visited(prev, next, limit, chain - 1) else [cur]
  {
  }

  /** The strings that a search at this place of the text goes through, given what the tables held before
      the string was entered. */
  ghost function Onward(bits: nat, data: seq<byte>, base: nat, at: nat, ahead: nat, head: seq<nat>, prev: seq<nat>,
                        maxDist: nat, chain: nat): seq<nat>
  {
    if 8 <= bits <= 16 && ahead >= MIN_MATCH && base + at + 3 <= |data| && |prev| > 0 then
      var h := Slot(bits, data, base + at);
      if h < |head| && head[h] != 0 && at - head[h] <= maxDist then
        Visited(prev[at % |prev| := head[h]], head[h], if at > maxDist then at - maxDist else 0, chain)
      else []
    else []
  }

  /** Links below this are out of reach. */
  function SearchLimit(s: DeflateState): nat
    requires s.wSize >= 512
    reads s`strstart
  {
    if s.strstart > s.MaxDist() then s.strstart - s.MaxDist() else 0
  }

  /** The next string on the chain, if it is within reach. */
  method NextOnChain(s: DeflateState, cur: nat, limit: nat, ghost w: seq<byte>, ghost prev: seq<nat>)
    returns (more: bool, next: nat)
    requires Searchable(s, w, prev) && Candidate(s, cur)
    requires s.wSize >= 512 && limit == SearchLimit(s)
    ensures more ==> Candidate(s, next) && 0 < next < cur
    ensures next == prev[cur % |prev|] && more == (next > limit)
  {
    hide Slot, Chains, OnChain;
    Followed(s.hashBits, s.data, s.ins, s.base, s.top, s.head[..], s.prev[..], cur, Slot(s.hashBits, s.data, s.Cur()));
    next := s.prev[cur % s.wSize];
    assert next == s.prev[..][cur % s.wSize];
    more := next > limit;
  }

  /** Three bytes, taken from the string where it has been seen to match before. */
  method Promising(s: DeflateState, m: nat, bestLen: nat) returns (yes: bool)
    requires s.Sized() && s.Holding() && s.Spanned() && Candidate(s, m) && s.strstart + MAX_MATCH < s.window.Length
    requires 1 <= bestLen <= MAX_MATCH && s.lookahead >= MIN_MATCH
    ensures yes ==> Agree(s.window[..], s.strstart, m, MIN_MATCH)
    ensures !yes ==> NoLonger(s.window[..], s.strstart, m, bestLen)
  {
    hide WindowOk, Agree, Slot, OnChain, NoLonger;
    var scan := s.strstart;
    var w := s.window;
    CandidateSays(s, m);
    if w[m + bestLen] != w[scan + bestLen] {
      Differs(w[..], scan, m, bestLen, bestLen);
      return false;
    }
    if w[m + bestLen - 1] != w[scan + bestLen - 1] {
      Differs(w[..], scan, m, bestLen - 1, bestLen);
      return false;
    }
    if w[m] != w[scan] {
      Differs(w[..], scan, m, 0, bestLen);
      return false;
    }
    if w[m + 1] != w[scan + 1] {
      Differs(w[..], scan, m, 1, bestLen);
      return false;
    }
    ThirdFollows(s.hashBits, w[..], s.data, s.ins, s.base, s.strstart + s.lookahead, scan, m);
    return true;
  }

  /** How far the string agrees with the current one, or nothing when it does not look promising. */
  method MatchAt(s: DeflateState, m: nat, bestLen: nat, ghost w: seq<byte>, ghost prev: seq<nat>) returns (len: nat)
    requires Searchable(s, w, prev) && Candidate(s, m) && 1 <= bestLen <= MAX_MATCH
    ensures len > 0 ==> len <= MAX_MATCH && Agree(w, s.strstart, m, len)
    ensures NoLonger(w, s.strstart, m, if len > bestLen then len else bestLen)
  {
    hide WindowOk, Chains, Agree, Candidate, NoLonger, TableSize;
    CandidateSays(s, m);
    len := 0;
    var yes := Promising(s, m, bestLen);
    if yes {
      len := CompareRun(s.window, s.strstart, m);
      if len <= bestLen { NoLongerMore(s.window[..], s.strstart, m, len, bestLen); }
    }
  }

  /** With a good match in hand the search is a short one. */
  function ChainFor(s: DeflateState, held: nat): nat {
    if held >= s.goodMatch then s.maxChainLength / 4 else s.maxChainLength
  }

  function SearchLength(s: DeflateState): nat
    reads s`prevLength
  {
    ChainFor(s, s.prevLength)
  }

  /** All the strings looked at from curMatch on. */
  ghost function Searched(s: DeflateState, curMatch: nat): seq<nat>
    requires s.wSize >= 512 && s.prev.Length > 0
    reads s`strstart, s`prevLength, s.prev
  {
    Visited(s.prev[..], curMatch, SearchLimit(s), SearchLength(s))
  }

  /** What the window has at m would do for a match of length k of the text at base + at. */
  ghost predicate WouldDo(data: seq<byte>, base: nat, at: nat, ahead: nat, m: nat, k: nat) {
    m < at && k <= ahead && k <= MAX_MATCH && Repeats(data, base + at, at - m, k)
  }

  ghost predicate Outdone(data: seq<byte>, base: nat, at: nat, ahead: nat, ms: seq<nat>, r: nat) {
    forall m: nat, k: nat :: m in ms && WouldDo(data, base, at, ahead, m, k) ==> k <= r
  }

  /** None of these strings would do for a longer match. */
  ghost predicate NoneLonger(s: DeflateState, ms: seq<nat>, r: nat)
    reads s`data, s`base, s`strstart, s`lookahead
  {
    Outdone(s.data, s.base, s.strstart, s.lookahead, ms, r)
  }

  lemma RepeatsAgree(w: seq<byte>, data: seq<byte>, base: nat, end: nat, scan: nat, m: nat, k: nat)
    requires WindowOk(w, data, base, end) && m < scan && scan + k <= end && base + end <= |data|
    requires Repeats(data, base + scan, scan - m, k)
    ensures Agree(w, scan, m, k)
  {
    assert scan + k <= |w| by {
      if k > 0 { WindowAt(w, data, base, end, scan + k - 1); } else { WindowAt(w, data, base, end, m); }
    }
    var u, v := w[scan..scan + k], w[m..m + k];
    forall d | 0 <= d < k ensures u[d] == v[d] {
      assert Echoes(data, scan - m, base + scan + d);
      WindowAt(w, data, base, end, scan + d);
      WindowAt(w, data, base, end, m + d);
    }
  }

  /** What is so of the window is so of the input. */
  lemma NoneLongerHere(s: DeflateState, w: seq<byte>, prev: seq<nat>, ms: seq<nat>, best: nat, r: nat)
    requires Searchable(s, w, prev)
    requires forall m :: m in ms ==> NoLonger(w, s.strstart, m, best)
    requires r == if best <= s.lookahead then best else s.lookahead
    ensures NoneLonger(s, ms, r)
  {
    hide WindowOk, Agree, Repeats, Chains, TableSize;
    forall m: nat, k: nat | m in ms && WouldDo(s.data, s.base, s.strstart, s.lookahead, m, k) ensures k <= r {
      RepeatsAgree(s.window[..], s.data, s.base, s.strstart + s.lookahead, s.strstart, m, k);
      assert NoLonger(s.window[..], s.strstart, m, best);
    }
  }

  /** One more string has been looked at. */
  lemma LookedAt(w: seq<byte>, scan: nat, past: seq<nat>, cur: nat, best: nat, best1: nat)
    requires best <= best1 && NoLonger(w, scan, cur, best1)
    requires forall m :: m in past ==> NoLonger(w, scan, m, best)
    ensures forall m :: m in past + [cur] ==> NoLonger(w, scan, m, best1)
  {
    hide NoLonger;
    forall m | m in past ensures NoLonger(w, scan, m, best1) { NoLongerMore(w, scan, m, best, best1); }
  }

  /** The longest match on the chain from curMatch on, if it is longer than prevLength: of all strings
      looked at none would do for a longer one, unless what was found is nice enough to stop at.  Never
      longer than the input reaches. */
  method LongestMatch(s: DeflateState, curMatch: nat) returns (r: nat)
    requires s.Sized() && s.Holding() && s.Spanned() && s.Chained() && Candidate(s, curMatch) && s.top <= s.Cur() + 1
    requires s.strstart + MAX_MATCH < s.window.Length && s.lookahead >= MIN_MATCH
    requires MIN_MATCH - 1 <= s.prevLength <= MAX_MATCH
    modifies s`matchStart
    ensures r <= s.lookahead && r <= MAX_MATCH && r >= Min(s.prevLength, s.lookahead)
    ensures r > s.prevLength ==> Found(s, r)
    ensures NoneLonger(s, old(Searched(s, curMatch)), r) || (r > s.prevLength && r >= Min(s.niceLength, s.lookahead))
    ensures r > s.prevLength ==> s.matchStart in old(Searched(s, curMatch)) && NoneLonger(s, [s.matchStart], r)
  {
    hide *;
    ghost var prev, win := s.prev[..], s.window[..];
    SearchBegins(s, curMatch);
    ghost var seen := Searched(s, curMatch);
    var chainLength: nat := s.maxChainLength;
    var scan := s.strstart;
    var bestLen: nat := s.prevLength;
    var nice := s.niceLength;
    var limit: nat := if scan > s.MaxDist() then scan - s.MaxDist() else 0;
    if s.prevLength >= s.goodMatch { chainLength := chainLength / 4; }
    if nice > s.lookahead { nice := s.lookahead; }
    var cur: nat := curMatch;
    ghost var past: seq<nat> := [];
    var enough := false;
    LookingStart(s, win, prev, seen, cur, limit, chainLength, bestLen);
    while true
      invariant !enough && chainLength >= 1 && Looking(s, win, prev, seen, past, cur, limit, chainLength, bestLen)
      decreases cur
    {
      bestLen, enough := TryMatch(s, cur, bestLen, nice, win, prev, seen, past, limit, chainLength);
      ghost var before := past;
      past := past + [cur];
      if enough { break; }
      var more, next := FollowChain(s, cur, limit, win, prev, seen, before, chainLength, bestLen);
      if !more { break; }
      chainLength := chainLength - 1;
      if chainLength == 0 { break; }
      cur := next;
    }
    r := if bestLen <= s.lookahead then bestLen else s.lookahead;
    LookedSays(s, win, prev, seen, past, bestLen, r);
    if enough && r == s.lookahead { AllOutdone(s, seen, r); }
    SmallerIs(s.prevLength, s.lookahead);
    SmallerIs(s.niceLength, s.lookahead);
  }

  /** The search has looked at the strings in past, and cur comes next. */
  ghost predicate Looking(s: DeflateState, w: seq<byte>, prev: seq<nat>, seen: seq<nat>, past: seq<nat>, cur: nat,
                          limit: nat, chain: nat, best: nat)
    reads s`matchStart, s`prevLength, s`data, s`base, s`strstart, s`lookahead, s`ins, s`top, s.window, s.head, s.prev
  {
    Looked(s, w, prev, seen, past, best) && Ahead(s, prev, seen, past, cur, limit, chain)
  }

  /** What is still to be looked at. */
  ghost predicate Ahead(s: DeflateState, prev: seq<nat>, seen: seq<nat>, past: seq<nat>, cur: nat, limit: nat,
                        chain: nat)
    reads s`data, s`base, s`strstart, s`ins
  {
    && Candidate(s, cur) && chain >= 1 && s.wSize >= 512 && |prev| > 0
    && limit == SearchLimit(s) && past + Visited(prev, cur, limit, chain) == seen
  }

  /** None of the strings in past goes further than best. */
  ghost predicate Looked(s: DeflateState, w: seq<byte>, prev: seq<nat>, seen: seq<nat>, past: seq<nat>, best: nat)
    reads s`matchStart, s`prevLength, s`data, s`base, s`strstart, s`lookahead, s`ins, s`top, s.window, s.head, s.prev
  {
    Searchable(s, w, prev) && Outcome(s, w, seen, past, best)
  }

  ghost predicate Outcome(s: DeflateState, w: seq<byte>, seen: seq<nat>, past: seq<nat>, best: nat)
    reads s`matchStart, s`prevLength, s`strstart
  {
    && MIN_MATCH - 1 <= s.prevLength <= best <= MAX_MATCH && (best > s.prevLength ==> Best(s, w, seen, best))
    && forall m :: m in past ==> NoLonger(w, s.strstart, m, best)
  }

  lemma LookingStart(s: DeflateState, w: seq<byte>, prev: seq<nat>, seen: seq<nat>, cur: nat, limit: nat, chain: nat,
                     best: nat)
    requires Searchable(s, w, prev) && Candidate(s, cur) && chain >= 1 && s.wSize >= 512 && limit == SearchLimit(s)
    requires MIN_MATCH - 1 <= s.prevLength == best <= MAX_MATCH && seen == Visited(prev, cur, limit, chain)
    ensures Looking(s, w, prev, seen, [], cur, limit, chain, best)
  {
    hide SearchState, Candidate, Visited;
    assert [] + seen == seen;
  }

  lemma LookedSays(s: DeflateState, w: seq<byte>, prev: seq<nat>, seen: seq<nat>, past: seq<nat>, best: nat, r: nat)
    requires Looked(s, w, prev, seen, past, best) && r == if best <= s.lookahead then best else s.lookahead
    ensures s.prevLength <= best <= MAX_MATCH && (past == seen ==> NoneLonger(s, seen, r))
    ensures r > s.prevLength ==> Found(s, r) && s.matchStart in seen && NoneLonger(s, [s.matchStart], r)
  {
    hide SearchState, NoLonger, Outdone, Found, Best;
    if past == seen { NoneLongerHere(s, w, prev, seen, best, r); }
    if r > s.prevLength { BestFound(s, w, prev, seen, best, r); }
  }

  lemma AllOutdone(s: DeflateState, seen: seq<nat>, r: nat)
    requires r == s.lookahead
    ensures NoneLonger(s, seen, r)
  {
  }

  lemma SmallerIs(a: nat, b: nat)
    ensures Min(a, b) == if a < b then a else b
  {
  }

  lemma SearchBegins(s: DeflateState, curMatch: nat)
    requires s.Sized() && s.Holding() && s.Spanned() && s.Chained() && Candidate(s, curMatch) && s.top <= s.Cur() + 1
    requires s.strstart + MAX_MATCH < s.window.Length && s.lookahead >= MIN_MATCH && MIN_MATCH - 1 <= s.prevLength
    ensures Searchable(s, s.window[..], s.prev[..]) && s.wSize >= 512 && s.prev.Length > 0 && s.maxChainLength >= 4
    ensures SearchLimit(s) == if s.strstart > s.MaxDist() then s.strstart - s.MaxDist() else 0
    ensures Searched(s, curMatch) ==
            [] + Visited(s.prev[..], curMatch, SearchLimit(s),
                         if s.prevLength >= s.goodMatch then s.maxChainLength / 4 else s.maxChainLength)
    ensures s.prevLength >= 1
  {
    hide WindowOk, Chains, Slot, OnChain, TableSize, Visited;
  }

  lemma BestFound(s: DeflateState, w: seq<byte>, prev: seq<nat>, seen: seq<nat>, bestLen: nat, r: nat)
    requires Searchable(s, w, prev) && Best(s, w, seen, bestLen) && bestLen <= MAX_MATCH
    requires r == if bestLen <= s.lookahead then bestLen else s.lookahead
    ensures Found(s, r) && s.matchStart in seen && NoneLonger(s, [s.matchStart], r)
  {
    hide WindowOk, Chains, TableSize, Agree, NoLonger, Found, NoneLonger;
    FoundHere(s, bestLen, r);
    NoneLongerHere(s, w, prev, [s.matchStart], bestLen, r);
  }

  /** Takes the string at cur if it does better, and says whether that is nice enough. */
  method TryMatch(s: DeflateState, cur: nat, bestLen: nat, nice: nat,
                  ghost w: seq<byte>, ghost prev: seq<nat>, ghost seen: seq<nat>, ghost past: seq<nat>,
                  ghost limit: nat,
                  ghost chain: nat)
    returns (best: nat, enough: bool)
    requires Looking(s, w, prev, seen, past, cur, limit, chain, bestLen)
    modifies s`matchStart
    ensures Looked(s, w, prev, seen, past + [cur], best) && Ahead(s, prev, seen, past, cur, limit, chain)
    ensures enough ==> best > s.prevLength && best >= nice
  {
    hide SearchState, Agree, Candidate, NoLonger, Visited;
    CandidateSays(s, cur);
    var len := MatchAt(s, cur, bestLen, w, prev);
    best, enough := bestLen, false;
    if len > bestLen {
      s.matchStart := cur;
      best, enough := len, len >= nice;
    }
    LookedAt(w, s.strstart, past, cur, bestLen, best);
  }

  /** On to the next string, if there is one to look at. */
  method FollowChain(s: DeflateState, cur: nat, limit: nat,
                     ghost w: seq<byte>, ghost prev: seq<nat>, ghost seen: seq<nat>, ghost past: seq<nat>,
                     ghost chain: nat, ghost best: nat)
    returns (more: bool, next: nat)
    requires Looked(s, w, prev, seen, past + [cur], best) && Ahead(s, prev, seen, past, cur, limit, chain)
    ensures Looked(s, w, prev, seen, past + [cur], best) && (more ==> next < cur) && chain >= 1
    ensures more && chain > 1 ==> Looking(s, w, prev, seen, past + [cur], next, limit, chain - 1, best)
    ensures !more || chain == 1 ==> past + [cur] == seen
  {
    hide SearchState, Agree, Candidate, NoLonger, Visited, Best;
    VisitedNext(prev, cur, limit, chain);
    more, next := NextOnChain(s, cur, limit, w, prev);
    ghost var now := past + [cur];
    if more && chain > 1 {
      assert past + ([cur] + Visited(prev, next, limit, chain - 1)) == now + Visited(prev, next, limit, chain - 1);
    }
  }

  /** The best match so far, as long as it goes. */
  ghost predicate Best(s: DeflateState, w: seq<byte>, seen: seq<nat>, len: nat)
    reads s`matchStart, s`strstart
  {
    && s.wSize >= 512 && 0 < s.matchStart < s.strstart && s.strstart - s.matchStart <= s.MaxDist()
    && s.matchStart in seen
    && Agree(w, s.strstart, s.matchStart, len) && NoLonger(w, s.strstart, s.matchStart, len)
  }

  lemma FoundHere(s: DeflateState, bestLen: nat, r: nat)
    requires s.Sized() && s.Holding() && s.Spanned() && r <= bestLen <= MAX_MATCH && r <= s.lookahead
    requires 0 < s.matchStart < s.strstart && s.strstart - s.matchStart <= s.MaxDist()
    requires Agree(s.window[..], s.strstart, s.matchStart, bestLen)
    ensures Found(s, r)
  {
    hide WindowOk, Agree, Repeats;
    AgreeRepeats(s.window[..], s.data, s.base, s.strstart + s.lookahead, s.strstart, s.matchStart, bestLen, r);
  }

  lemma AgreeRepeats(w: seq<byte>, data: seq<byte>, base: nat, end: nat, scan: nat, m: nat, len: nat, r: nat)
    requires WindowOk(w, data, base, end) && m < scan && r <= len && scan + r <= end && Agree(w, scan, m, len)
    ensures Repeats(data, base + scan, scan - m, r)
  {
    assert w[scan..scan + r] == w[scan..scan + len][..r];
    assert w[m..m + r] == w[m..m + len][..r];
    WindowRepeats(w, data, base, end, scan, m, r);
  }
}
