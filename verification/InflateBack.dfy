/** The call-back inflater: its window is its output buffer, handed over each time it fills up. */
module InflateBack {
  import opened Powers
  import opened Rotations
  import opened LowBits
  import opened Lz77
  import opened InflateFormat
  import opened BitReservoir
  import opened InflateSymbols
  import opened InflateCopy
  import opened Fast = InflateFast

  lemma {:induction false} CopyJoin(text: seq<byte>, dist: nat, a: nat, b: nat)
    requires 0 < dist <= |text|
    ensures Copy(Copy(text, dist, a), dist, b) == Copy(text, dist, a + b)
    decreases b
  {
    if b > 0 { CopyJoin(text, dist, a, b - 1); }
  }

  lemma LeastGrows(a: nat, b: nat, c: nat)
    ensures a <= b ==> Least(a, c) <= Least(b, c)
    ensures Least(a, c) <= a && Least(a, c) <= c
  {
  }

  /** What reaches past the bytes written in this round is still in the window. */
  lemma StretchFits(offset: nat, put: nat, left: nat, before: nat, size: nat, m: nat)
    requires put + left == size && offset <= Least(before + put, size) && (m == left || (m == 0 && before == 0))
    ensures Beyond(offset, put) <= m && offset <= size && offset <= before + put
  {
  }

  lemma HandedOver(win: seq<byte>, written: seq<byte>)
    ensures Older(win, 0, |win|, written + win)
  {
  }

  lemma OlderOn(win: seq<byte>, next: seq<byte>, o1: nat, o2: nat, base: seq<byte>)
    requires o1 <= o2 <= |win| && Older(win, 0, |win| - o1, base) && OnlyChanged(win, next, o1, o2 - o1)
    ensures Older(next, 0, |next| - o2, base)
  {
  }

  class BackState {
    const window: array<byte>
    var whave: nat
    /** where the next byte goes, and how many more fit */
    var put: nat
    var left: nat
    /** what was handed to the output call-back */
    ghost var written: seq<byte>

    ghost predicate Valid()
      reads this, window
    {
      && 0 < window.Length && put + left == window.Length && whave <= window.Length
      && (whave < window.Length ==> whave <= put && written == [])
      && (whave == window.Length ==> Older(window[..], 0, left, written))
    }

    /** All output so far. */
    ghost function Text(): seq<byte>
      reads this, window
      requires put <= window.Length
    {
      written + window[..put]
    }

    /** How much of it is still in the window. */
    ghost function Reach(): nat
      reads this, window
      requires put <= window.Length
    {
      Least(|Text()|, window.Length)
    }

    /** How many bytes more than it has written the fast inflater takes the window to hold. */
    ghost function Slack(): nat
      reads this
    {
      if whave < window.Length then put else window.Length
    }

    /** When that is never too many. */
    ghost predicate Tight()
      reads this
    {
      if whave < window.Length then put == 0 else window.Length >= MAX_DISTANCE
    }

    constructor (window: array<byte>)
      requires window.Length > 0
      ensures Valid() && this.window == window && Text() == [] && left == window.Length
    {
      this.window := window;
      whave, put, left := 0, 0, window.Length;
      written := [];
    }

    /** Makes room for a byte by handing over a full window. */
    method Room(refuse: bool) returns (ok: bool)
      requires Valid()
      modifies this
      ensures Valid() && Text() == old(Text()) && (ok ==> left > 0) && (!refuse ==> ok) && Reach() == old(Reach())
    {
      ok := true;
      if left == 0 {
        HandedOver(window[..], written);
        written := written + window[..];
        put := 0;
        left := window.Length;
        whave := left;
        ok := !refuse;
      }
    }

    /** The distances a match may have: those the slow path accepts. */
    lemma ReachIs()
      requires Valid()
      ensures Reach() == window.Length - (if whave < window.Length then left else 0)
    {
    }

    method PutLiteral(c: byte, refuse: bool) returns (ok: bool)
      requires Valid()
      modifies this, window
      ensures Valid() && (!refuse ==> ok) && Text() == if ok then old(Text()) + [c] else old(Text())
    {
      ok := Room(refuse);
      if ok {
        ghost var win := window[..];
        window[put] := c;
        if whave == window.Length { OlderOn(win, window[..], put, put + 1, written); }
        put := put + 1;
        left := left - 1;
        assert window[..put] == win[..put - 1] + [c];
      }
    }

    /** One stretch of a match: up to the end of the window, or of what lies ahead in it. */
    method CopyStretch(offset: nat, length: nat) returns (copy: nat)
      requires Valid() && left > 0 && 0 < offset <= Reach() && length > 0
      modifies this`put, this`left, window
      ensures Valid() && 0 < copy <= length && Text() == Copy(old(Text()), offset, copy) && Reach() >= old(Reach())
    {
      hide CopiedTo, OnlyChanged, MovedFrom, Older, Copy, Beyond;
      ghost var a, text, m := window[..], Text(), if whave == window.Length then left else 0;
      assert m == 0 || Older(a, 0, m, written);
      StretchFits(offset, put, left, |written|, window.Length, m);
      var from: nat;
      copy := window.Length - offset;
      if copy < left {
        from := put + copy;
        copy := left - copy;
      } else {
        from := put - offset;
        copy := left;
      }
      if copy > length { copy := length; }
      CopyRun(window, from, window, put, copy);
      StretchIsMatch(a, window[..], put, left, from, copy, offset, m, written);
      if whave == window.Length { OlderOn(a, window[..], put, put + copy, written); }
      put := put + copy;
      left := left - copy;
      LeastGrows(|text|, |Text()|, window.Length);
    }

    /** Copies a match, stretch by stretch. */
    method CopyMatch(offset: nat, len: nat, refuse: bool) returns (ok: bool)
      requires Valid() && 0 < offset <= Reach() && len > 0
      modifies this, window
      ensures Valid() && (!refuse ==> ok) && (ok ==> Text() == Copy(old(Text()), offset, len))
    {
      hide *;
      PutFits();
      ghost var text := Text();
      var length := len;
      CopyNothing(text, offset);
      assert offset <= |text| by { ReachBound(); }
      while true
        invariant Valid() && put <= window.Length && 0 < offset <= Reach() && 0 < length <= len
                  && Text() == Copy(text, offset, len - length)
        decreases length
      {
        ok := Room(refuse);
        if !ok { return; }
        PutFits();
        var copy := CopyStretch(offset, length);
        PutFits();
        CopyJoin(text, offset, len - length, copy);
        length := length - copy;
        if length == 0 { return; }
      }
    }

    lemma PutFits()
      requires Valid()
      ensures put <= window.Length
    {
    }

    lemma ReachBound()
      requires put <= window.Length
      ensures Reach() <= |Text()|
    {
    }
  }

  lemma CopyNothing(text: seq<byte>, dist: nat)
    ensures 0 < dist <= |text| ==> Copy(text, dist, 0) == text
  {
  }

  lemma OldEnough(win: seq<byte>, m: nat, base: seq<byte>)
    requires m == 0 || Older(win, 0, m, base)
    ensures Older(win, 0, m, base)
  {
  }

  /** The stretch lies ahead in the window, or right behind the place it is copied to. */
  lemma NewStretch(a: seq<byte>, b: seq<byte>, put: nat, left: nat, from: nat, copy: nat, offset: nat)
    requires put + left == |a| && 0 < offset <= |a| && 0 < copy
    requires OnlyChanged(a, b, put, copy)
    requires MovedFrom(if from < put then b else a, from, b, put, copy)
    requires if |a| - offset < left then from == put + |a| - offset && copy <= left - (|a| - offset)
             else from == put - offset && copy <= left
    ensures CopiedTo(a, 0, a, b, put, put + copy, Beyond(offset, put), offset)
  {
    var op := Beyond(offset, put);
    CopiedNothing(a, 0, a, put, op, offset);
    if |a| - offset < left {
      WindowPiece(a, 0, a, a, b, a, put, put, op, offset, from, copy);
    } else {
      OutputPiece(a, 0, a, a, b, put, put, op, offset, copy);
    }
  }

  lemma StretchIsMatch(a: seq<byte>, b: seq<byte>, put: nat, left: nat, from: nat, copy: nat, offset: nat, m: nat,
                       written: seq<byte>)
    requires put + left == |a| && 0 < offset <= |a| && 0 < copy
    requires OnlyChanged(a, b, put, copy) && |b| == |a| && copy <= left
    requires MovedFrom(if from < put then b else a, from, b, put, copy)
    requires if |a| - offset < left then from == put + |a| - offset && copy <= left - (|a| - offset)
             else from == put - offset && copy <= left
    requires (m == 0 || Older(a, 0, m, written)) && Beyond(offset, put) <= m
    ensures written + b[..put + copy] == Copy(written + a[..put], offset, copy)
  {
    hide CopiedTo, OnlyChanged, MovedFrom, Copy;
    NewStretch(a, b, put, left, from, copy, offset);
    OldEnough(a, m, written);
    CopiedIsMatch(a, 0, m, written, a, b, 0, put, offset, copy);
    assert b[..put + copy] == b[0..put + copy] && a[..put] == a[0..put];
  }

  // ---- a block of codes ----

  datatype Result = BlockDone | DataError(fault: Fault) | BufError

  /** The text grew by what the symbols stand for, if all of them could. */
  ghost predicate Grew(text: seq<byte>, size: nat, ts: seq<Token>, now: seq<byte>) {
    Near(text, size, ts) ==> now == Replay(text, ts)
  }

  lemma GrewMore(text: seq<byte>, size: nat, ts: seq<Token>, now: seq<byte>, us: seq<Token>, after: seq<byte>)
    requires Grew(text, size, ts, now) && Grew(now, size, us, after)
    ensures Grew(text, size, ts + us, after)
    ensures Near(text, size, ts) && Near(now, size, us) ==> Near(text, size, ts + us)
  {
    NearJoin(text, size, ts, us);
    ReplayJoin(text, ts, us);
  }

  lemma GrewByOne(text: seq<byte>, size: nat, s: Token, now: seq<byte>)
    requires now == Apply(text, s)
    requires s.Match? ==> 0 < s.dist <= Least(|text|, size)
    ensures Grew(text, size, [s], now) && Near(text, size, [s])
  {
    assert [s][..0] == [];
    assert Replay(text, []) == text;
  }

  /** In the first round of the window, with nothing in it at the beginning of the stretch. */
  lemma {:induction false} FirstRoundNear(size: nat, ts: seq<Token>)
    requires Allowed(0, 0, ts) && Produced(ts) <= size
    ensures Near([], size, ts) && |Replay([], ts)| == Produced(ts)
    decreases |ts|
  {
    if ts != [] { FirstRoundNear(size, ts[..|ts| - 1]); }
  }

  /** In a later round, where the window is at least as large as any distance. */
  lemma {:induction false} LaterRoundNear(text: seq<byte>, size: nat, slack: nat, have: nat, ts: seq<Token>)
    requires Allowed(slack, have, ts) && MAX_DISTANCE <= size <= |text|
    ensures Near(text, size, ts)
    decreases |ts|
  {
    if ts != [] { LaterRoundNear(text, size, slack, have, ts[..|ts| - 1]); }
  }

  /** A stretch accepted exactly what it may. */
  ghost predicate Stretched(slack: nat, put: nat, ts: seq<Token>, put2: nat) {
    Allowed(slack, put, ts) && put2 == put + Produced(ts)
  }

  /** A match refused reached past what the window is taken to hold, and past all written. */
  ghost predicate Refused(t: Tables, v: nat, n: nat, mode: Mode, bound: nat) {
    mode == BAD(TooFarBack) ==> Stopped(t, High(v, n), mode, bound)
  }

  lemma RefusedIs(t: Tables, v: nat, ts: seq<Token>, n: nat, mode: Mode, bound: nat, at0: nat, at: nat, w: nat)
    requires Progress(t, v, ts, n, mode, bound, at0, at, w)
    ensures Refused(t, v, n, mode, bound)
  {
  }

  ghost predicate NearIf(tight: bool, text: seq<byte>, size: nat, ts: seq<Token>) {
    tight ==> Near(text, size, ts)
  }

  lemma NearIs(tight: bool, text: seq<byte>, size: nat, ts: seq<Token>)
    requires NearIf(tight, text, size, ts)
    ensures tight ==> Near(text, size, ts)
  {
  }

  lemma NearMore(tight: bool, text: seq<byte>, size: nat, ts: seq<Token>, now: seq<byte>, us: seq<Token>)
    requires Grew(text, size, ts, now) && NearIf(tight, now, size, us)
    ensures NearIf(tight && Near(text, size, ts), text, size, ts + us)
  {
    NearJoin(text, size, ts, us);
  }

  lemma StretchIsNear(text: seq<byte>, size: nat, slack: nat, put: nat, ts: seq<Token>, later: bool)
    requires Allowed(slack, put, ts) && put + Produced(ts) <= size
    requires if later then MAX_DISTANCE <= size <= |text| else slack == put == 0 && text == []
    ensures Near(text, size, ts)
  {
    if later {
      LaterRoundNear(text, size, slack, put, ts);
    } else {
      FirstRoundNear(size, ts);
    }
  }

  /** A stretch of the block by the fast inflater, straight into the window. */
  method Hurry(st: BackState, src: Reservoir, t: Tables, ghost v: nat, ghost text: seq<byte>, ghost slack: nat,
               ghost tight: bool)
    returns (mode: Mode, ghost ts: seq<Token>, ghost n: nat)
    requires Usable(t) && src.Valid() && src.bits < 8 && src.Ahead() == v && src.next + 6 <= |src.input|
    requires st.Valid() && st.left >= MAX_LENGTH && text == st.Text() && slack == st.Slack() && tight == st.Tight()
    modifies st, st.window, src
    ensures st.Valid() && src.Valid() && src.bits < 8
    ensures Progress(t, v, ts, n, mode, st.Reach(), old(src.At()), src.At(), src.Ahead())
    ensures Stretched(slack, old(st.put), ts, st.put) && Refused(t, v, n, mode, slack + st.put)
            && NearIf(tight, text, st.window.Length, ts)
    ensures mode == LEN ==> old(src.At()) < src.At()
    ensures Grew(text, st.window.Length, ts, st.Text())
  {
    hide Progress, Reads, Near, Allowed, Produced, Usable;
    ghost var later := st.whave == st.window.Length;
    if st.whave < st.window.Length {
      st.whave := st.window.Length - st.left;
    }
    ghost var a, put, at0 := st.window[..], st.put, src.At();
    var out;
    out, mode, ts, n := Fast.InflateFast(src, t, st.window, 0, st.whave, st.window, 0, st.put, st.written, v);
    ghost var bound := slack + out;
    RefusedIs(t, v, ts, n, mode, bound, at0, src.At(), src.Ahead());
    if st.whave == st.window.Length { OlderOn(a, st.window[..], st.put, out, st.written); }
    st.put := out;
    st.left := st.window.Length - out;
    ProgressNearer(t, v, ts, n, mode, bound, st.Reach(), at0, src.At(), src.Ahead());
    if tight { StretchIsNear(text, st.window.Length, slack, put, ts, later); }
  }

  /** How one symbol was dealt with, one at a time. */
  datatype Dealt = Kept | Ended | Failed(fault: Fault) | Stuck

  /** What was dealt with is what the bits w say, and the reader is past it. */
  ghost predicate ReadRight(t: Tables, w: nat, d: Dealt, token: Token, at: nat, at2: nat, w2: nat) {
    && at <= at2
    && (d.Kept? || d.Ended? ==> at2 == at + Taken(Next(t, w)) && w2 == High(w, Taken(Next(t, w))))
    && (d.Kept? ==> Tells(Next(t, w), Sym(token)))
    && (d.Ended? ==> Tells(Next(t, w), End))
  }

  /** A symbol is refused for a reason. */
  ghost predicate FailedRight(t: Tables, w: nat, d: Dealt, token: Token, reach: nat) {
    d.Failed? ==>
      if d.fault == TooFarBack then Tells(Next(t, w), Sym(token)) && token.Match? && token.dist > reach
      else Tells(Next(t, w), Bad(d.fault))
  }

  ghost predicate Right(t: Tables, w: nat, d: Dealt, token: Token, at: nat, at2: nat, w2: nat, reach: nat) {
    ReadRight(t, w, d, token, at, at2, w2) && FailedRight(t, w, d, token, reach)
  }

  /** A symbol kept is at the end of the text; nothing else is added. */
  ghost predicate StoredRight(d: Dealt, token: Token, text: seq<byte>, reach: nat, now: seq<byte>) {
    && (d.Kept? ==> now == Apply(text, token) && (token.Match? ==> 0 < token.dist <= reach))
    && (d.Ended? || d.Failed? ==> now == text)
  }

  /** One symbol, read without looking ahead and stored a stretch at a time. */
  method Step(st: BackState, src: Reservoir, t: Tables, refuse: bool, ghost v: nat)
    returns (d: Dealt, ghost token: Token)
    requires Usable(t) && src.Valid() && src.bits < 8 && src.Ahead() == v && st.Valid()
    modifies st, st.window, src
    ensures st.Valid() && src.Valid() && old(src.At()) <= src.At()
    ensures d.Kept? || d.Ended? ==> src.bits < 8
    ensures d.Kept? ==> src.At() > old(src.At())
    ensures Right(t, v, d, token, old(src.At()), src.At(), src.Ahead(), st.Reach())
    ensures StoredRight(d, token, old(st.Text()), old(st.Reach()), st.Text())
    ensures d.Stuck? ==> refuse || (Proper(Next(t, v)) ==> old(src.At()) + Taken(Next(t, v)) > 8 * |src.input|)
  {
    hide Usable, Tells, Next, Apply, Least;
    st.PutFits();
    ghost var text, reach := st.Text(), st.Reach();
    hide BackState.Valid, BackState.Text, BackState.Reach, Reservoir.Valid, Reservoir.At, Reservoir.Ahead;
    var s := SlowItem(src, t, v);
    token := Literal(0);
    match s {
      case Starved =>
        d := Stuck;
      case End =>
        d := Ended;
      case Bad(fault) =>
        ReadingNeverFar(Next(t, v), s);
        d := Failed(fault);
      case Sym(tok) =>
        token := tok;
        SymFits(t, v, s);
        match tok {
          case Literal(c) =>
            var ok := st.PutLiteral(c, refuse);
            d := if ok then Dealt.Kept else Stuck;
            ApplyIs(text, token);
          case Match(dist, len) =>
            st.ReachIs();
            if dist > st.window.Length - (if st.whave < st.window.Length then st.left else 0) {
              d := Failed(TooFarBack);
            } else {
              st.ReachBound();
              var ok := st.CopyMatch(dist, len, refuse);
              d := if ok then Dealt.Kept else Stuck;
              ApplyIs(text, token);
            }
        }
    }
  }

  lemma ApplyIs(text: seq<byte>, s: Token)
    ensures s.Literal? ==> Apply(text, s) == text + [s.c]
    ensures s.Match? && 0 < s.dist <= |text| ==> Apply(text, s) == Copy(text, s.dist, s.len)
  {
  }

  /** What one symbol dealt with does to the progress of the run. */
  lemma DealtProgress(t: Tables, v: nat, ts: seq<Token>, n: nat, r1: nat, at0: nat, at: nat, w: nat, r2: nat,
                      d: Dealt, token: Token, at2: nat, w2: nat)
    requires Progress(t, v, ts, n, LEN, r1, at0, at, w) && Right(t, w, d, token, at, at2, w2, r2)
    ensures !d.Stuck? ==>
              Progress(t, v, if d.Kept? then ts + [token] else ts, if d.Kept? then n + Taken(Next(t, w)) else n,
                       After(d), r2, at0, at2, w2)
  {
    hide Progress, Next, Low, High, Pow2, Tells;
    match d {
      case Kept => ProgressGoesOn(t, v, ts, n, r1, at0, at, w, r2, Sym(token), at2, w2);
      case Ended => ProgressGoesOn(t, v, ts, n, r1, at0, at, w, r2, End, at2, w2);
      case Failed(f) =>
        if f == TooFarBack {
          FailedFar(t, v, ts, n, r1, at0, at, w, r2, token, at2, w2);
        } else {
          ProgressGoesOn(t, v, ts, n, r1, at0, at, w, r2, Bad(f), at2, w2);
        }
      case Stuck =>
    }
  }

  lemma FailedFar(t: Tables, v: nat, ts: seq<Token>, n: nat, r1: nat, at0: nat, at: nat, w: nat, r2: nat,
                  token: Token, at2: nat, w2: nat)
    requires Progress(t, v, ts, n, LEN, r1, at0, at, w) && at <= at2
    requires Tells(Next(t, w), Sym(token)) && token.Match? && token.dist > r2
    ensures Progress(t, v, ts, n, BAD(TooFarBack), r2, at0, at2, w2)
  {
    hide Reads, Next, Low, High, Pow2;
  }

  /** What came before and what a fast stretch added. */
  lemma StretchJoins(t: Tables, v: nat, ts: seq<Token>, n: nat, r0: nat, at0: nat, at: nat, w: nat, us: seq<Token>,
                     m: nat, mode: Mode,
                     r2: nat, at2: nat, w2: nat, text: seq<byte>, now: seq<byte>, after: seq<byte>, size: nat,
                     tight: bool)
    requires Progress(t, v, ts, n, LEN, r0, at0, at, w) && Progress(t, w, us, m, mode, r2, at, at2, w2)
    requires Grew(text, size, ts, now) && Grew(now, size, us, after) && NearIf(tight, now, size, us)
    ensures Progress(t, v, ts + us, n + m, mode, r2, at0, at2, w2)
    ensures Grew(text, size, ts + us, after) && NearIf(tight && Near(text, size, ts), text, size, ts + us)
  {
    hide *;
    ProgressJoin(t, v, ts, n, r0, at0, at, w, us, m, mode, r2, at2, w2);
    GrewMore(text, size, ts, now, us, after);
    NearMore(tight, text, size, ts, now, us);
  }

  /** A fast stretch after what was decoded before. */
  method FastTurn(st: BackState, src: Reservoir, t: Tables, ghost v: nat, ghost ts: seq<Token>, ghost n: nat,
                  ghost text: seq<byte>, ghost at0: nat,
                  ghost tight: bool)
    returns (mode: Mode, ghost us: seq<Token>, ghost m: nat)
    requires Usable(t) && src.Valid() && src.bits < 8 && st.Valid() && src.next + 6 <= |src.input|
             && st.left >= MAX_LENGTH
    requires Progress(t, v, ts, n, LEN, st.Reach(), at0, src.At(), src.Ahead())
             && Grew(text, st.window.Length, ts, st.Text())
    requires tight == st.Tight()
    modifies st, st.window, src
    ensures st.Valid() && src.Valid() && src.bits < 8
    ensures Progress(t, v, us, m, mode, st.Reach(), at0, src.At(), src.Ahead())
            && Grew(text, st.window.Length, us, st.Text())
    ensures NearIf(tight && Near(text, st.window.Length, ts), text, st.window.Length, us)
    ensures mode == LEN ==> old(src.At()) < src.At()
  {
    hide *;
    st.PutFits();
    ghost var w, at, now, reach, slack := src.Ahead(), src.At(), st.Text(), st.Reach(), st.Slack();
    mode, us, m := Hurry(st, src, t, w, now, slack, tight);
    st.PutFits();
    ghost var w2, at2, after, reach2 := src.Ahead(), src.At(), st.Text(), st.Reach();
    StretchJoins(t, v, ts, n, reach, at0, at, w, us, m, mode, reach2, at2, w2, text, now, after, st.window.Length,
                 tight);
    us, m := ts + us, n + m;
  }

  /** A single symbol after what was decoded before. */
  method SlowTurn(st: BackState, src: Reservoir, t: Tables, refuse: bool, ghost v: nat, ghost ts: seq<Token>,
                  ghost n: nat, ghost text: seq<byte>, ghost at0: nat)
    returns (d: Dealt, ghost us: seq<Token>, ghost m: nat)
    requires Usable(t) && src.Valid() && src.bits < 8 && st.Valid()
    requires Progress(t, v, ts, n, LEN, st.Reach(), at0, src.At(), src.Ahead())
             && Grew(text, st.window.Length, ts, st.Text())
    modifies st, st.window, src
    ensures st.Valid() && src.Valid() && (d.Kept? || d.Ended? ==> src.bits < 8)
    ensures !d.Stuck? ==> Progress(t, v, us, m, After(d), st.Reach(), at0, src.At(), src.Ahead())
    ensures !d.Stuck? ==> Grew(text, st.window.Length, us, st.Text())
    ensures !d.Stuck? && Near(text, st.window.Length, ts) ==> Near(text, st.window.Length, us)
    ensures d.Kept? ==> old(src.At()) < src.At()
    ensures d.Stuck? ==>
              us == ts && m == n
              && (refuse || (Proper(Next(t, High(v, n))) ==> at0 + n + Taken(Next(t, High(v, n))) > 8 * |src.input|))
  {
    ghost var w, at, now, reach := src.Ahead(), src.At(), st.Text(), st.Reach();
    ProgressMeans(t, v, ts, n, reach, at0, at, w);
    hide *;
    hide BackState.Valid, BackState.Text, BackState.Reach, Reservoir.Valid, Reservoir.At, Reservoir.Ahead;
    ghost var token;
    d, token := Step(st, src, t, refuse, w);
    DealtProgress(t, v, ts, n, reach, at0, at, w, st.Reach(), d, token, src.At(), src.Ahead());
    DealtGrew(text, st.window.Length, ts, now, d, token, reach, st.Text());
    us, m := if d.Kept? then ts + [token] else ts, if d.Kept? then n + Taken(Next(t, w)) else n;
  }

  function After(d: Dealt): Mode
    requires !d.Stuck?
  {
    match d
    case Kept => LEN
    case Ended => TYPE
    case Failed(fault) => BAD(fault)
  }

  lemma AfterIs(d: Dealt)
    ensures d.Kept? ==> After(d) == LEN
    ensures d.Ended? ==> After(d) == TYPE
    ensures d.Failed? ==> After(d) == BAD(d.fault)
  {
  }

  lemma ProgressMeans(t: Tables, v: nat, ts: seq<Token>, n: nat, r: nat, at0: nat, at: nat, w: nat)
    requires Progress(t, v, ts, n, LEN, r, at0, at, w)
    ensures Reads(t, v, ts, n) && at == at0 + n && w == High(v, n)
  {
  }

  lemma DealtGrew(text: seq<byte>, size: nat, ts: seq<Token>, now: seq<byte>, d: Dealt, token: Token, reach: nat,
                  after: seq<byte>)
    requires Grew(text, size, ts, now) && StoredRight(d, token, now, reach, after) && reach == Least(|now|, size)
    ensures !d.Stuck? ==> Grew(text, size, if d.Kept? then ts + [token] else ts, after)
    ensures Near(text, size, ts) ==> Near(text, size, if d.Kept? then ts + [token] else ts)
  {
    hide Grew, Near, Apply;
    if d.Kept? {
      GrewByOne(now, size, token, after);
      GrewMore(text, size, ts, now, [token], after);
    }
  }

  /** Decodes one block of codes: whatever mix of fast stretches and single symbols is taken. */
  method DecodeBlock(st: BackState, src: Reservoir, t: Tables, willing: bool, ghost v: nat)
    returns (r: Result, ghost ts: seq<Token>, ghost n: nat, ghost loose: bool)
    requires Usable(t) && src.Valid() && src.bits < 8 && src.Ahead() == v && st.Valid()
    modifies st, st.window, src
    ensures st.Valid() && src.Valid()
    ensures r.BlockDone? ==>
              Progress(t, v, ts, n, TYPE, st.Reach(), old(src.At()), src.At(), src.Ahead()) && src.bits < 8
    ensures r.DataError? ==> Progress(t, v, ts, n, BAD(r.fault), st.Reach(), old(src.At()), src.At(), src.Ahead())
    ensures r.BufError? ==> Reads(t, v, ts, n)
    ensures r.BufError? && willing && Proper(Next(t, High(v, n))) ==>
              old(src.At()) + n + Taken(Next(t, High(v, n))) > 8 * |src.input|
    ensures !r.BufError? ==> Grew(old(st.Text()), st.window.Length, ts, st.Text())
    ensures !loose ==> Near(old(st.Text()), st.window.Length, ts)
  {
    ghost var text, at0 := st.Text(), src.At();
    hide *;
    hide BackState.Valid, BackState.Text, BackState.Reach, Reservoir.Valid, Reservoir.At, Reservoir.Ahead;
    ProgressStarts(t, v, st.Reach(), at0);
    NothingGrew(text, st.window.Length);
    ts, n, loose := [], 0, false;
    while true
      invariant st.Valid() && src.Valid() && src.bits < 8
      invariant Progress(t, v, ts, n, LEN, st.Reach(), at0, src.At(), src.Ahead())
      invariant Grew(text, st.window.Length, ts, st.Text())
      invariant !loose ==> Near(text, st.window.Length, ts)
      decreases 8 * |src.input| - src.At()
    {
      ProgressMeans(t, v, ts, n, st.Reach(), at0, src.At(), src.Ahead());
      var ample: bool := *;
      if ample && src.next + 6 <= |src.input| && st.left >= MAX_LENGTH {
        loose := loose || !st.Tight();
        var mode;
        ghost var near := Near(text, st.window.Length, ts);
        ghost var tight := st.Tight();
        mode, ts, n := FastTurn(st, src, t, v, ts, n, text, at0, tight);
        NearIs(tight && near, text, st.window.Length, ts);
        match mode {
          case LEN =>
          case TYPE => return BlockDone, ts, n, loose;
          case BAD(fault) => return DataError(fault), ts, n, loose;
        }
      } else {
        var refuse: bool := *;
        var d;
        d, ts, n := SlowTurn(st, src, t, refuse && !willing, v, ts, n, text, at0);
        if !d.Stuck? { AfterIs(d); }
        match d {
          case Kept =>
          case Ended => return BlockDone, ts, n, loose;
          case Failed(fault) => return DataError(fault), ts, n, loose;
          case Stuck => return BufError, ts, n, loose;
        }
      }
    }
  }

  lemma NothingGrew(text: seq<byte>, size: nat)
    ensures Grew(text, size, [], text) && Near(text, size, [])
  {
  }
}
