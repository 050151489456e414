/** The fast inflater: literals and matches decoded without checking for input or output on the way. */
module InflateFast {
  import opened Powers
  import opened Rotations
  import opened LowBits
  import opened Lz77
  import opened InflateFormat
  import opened BitReservoir
  import opened InflateSymbols
  import opened InflateCopy

  datatype Mode = LEN | TYPE | BAD(fault: Fault)

  /** The window keeps the end of the text before the output began.  A window that is the output
      itself is circular: what it keeps lies past the place written next. */
  ghost predicate Kept(window: array<byte>, wnext: nat, whave: nat, output: array<byte>, beg: nat, out: nat,
                       base: seq<byte>)
    reads window
  {
    && out <= output.Length && wnext <= window.Length && whave <= window.Length && beg <= out
    && (if window != output then Older(window[..], wnext, whave, base)
        else beg == 0 && wnext == 0 && (base == [] || Older(window[..], 0, window.Length - out, base)))
  }

  ghost predicate IsNear(window: array<byte>, output: array<byte>, have: nat, s: Token) {
    window != output || (s.Match? ==> 0 < s.dist <= Least(have, window.Length))
  }

  ghost predicate TokenFits(s: Token) {
    s.Match? ==> 3 <= s.len <= MAX_LENGTH && 1 <= s.dist <= MAX_DISTANCE
  }

  /** How many bytes the symbols write. */
  function Size(s: Token): nat {
    if s.Match? then s.len else 1
  }

  function Produced(ts: seq<Token>): nat {
    if ts == [] then 0 else Produced(ts[..|ts| - 1]) + Size(ts[|ts| - 1])
  }

  /** The distances the fast inflater accepts: up to whave bytes more than it has written, of
      which there were have at the beginning. */
  ghost predicate Allowed(whave: nat, have: nat, ts: seq<Token>) {
    ts == [] ||
    var t, s := ts[..|ts| - 1], ts[|ts| - 1];
    Allowed(whave, have, t) && TokenFits(s) && (s.Match? ==> s.dist <= whave + have + Produced(t))
  }

  lemma AllowedNext(whave: nat, have: nat, ts: seq<Token>, s: Token)
    requires TokenFits(s)
    ensures Produced(ts + [s]) == Produced(ts) + Size(s)
    ensures Allowed(whave, have, ts + [s]) <==>
              Allowed(whave, have, ts) && (s.Match? ==> s.dist <= whave + have + Produced(ts))
  {
    assert (ts + [s])[..|ts|] == ts;
  }

  lemma NothingAllowed(whave: nat, have: nat)
    ensures Allowed(whave, have, []) && Produced([]) == 0
  {
  }

  lemma KeptOn(window: array<byte>, wnext: nat, win: seq<byte>, output: array<byte>, o1: nat, o2: nat, base: seq<byte>)
    requires window == output && o1 <= o2 <= window.Length && |win| == window.Length
    requires Older(win, 0, window.Length - o1, base)
    requires OnlyChanged(win, window[..], o1, o2 - o1)
    ensures Older(window[..], 0, window.Length - o2, base)
  {
  }

  /** A match that reaches past what the window has. */
  predicate TooFar(s: Token, whave: nat, have: nat) {
    s.Match? && Beyond(s.dist, have) > whave
  }

  /** Writes one literal or match. */
  method FastStore(window: array<byte>, wnext: nat, whave: nat, output: array<byte>, beg: nat, out: nat, s: Token,
                   ghost base: seq<byte>)
    returns (next: nat)
    requires TokenFits(s) && beg <= out && out + MAX_LENGTH <= output.Length && !TooFar(s, whave, out - beg)
    requires wnext <= window.Length && whave <= window.Length
    modifies output
    ensures next == out + Size(s) <= out + MAX_LENGTH && OnlyChanged(old(output[..]), output[..], out, next - out)
    ensures var text := old(base + output[beg..out]);
            old(Kept(window, wnext, whave, output, beg, out, base)) && IsNear(window, output, |text|, s) ==>
              && Kept(window, wnext, whave, output, beg, next, base)
              && base + output[beg..next] == Apply(text, s)
  {
    ghost var win, text := window[..], base + output[beg..out];
    ghost var fine := Kept(window, wnext, whave, output, beg, out, base) && IsNear(window, output, |text|, s);
    match s {
      case Literal(c) =>
        output[out] := c;
        next := out + 1;
        assert base + output[beg..next] == text + [c];
        if fine && window == output && base != [] {
          KeptOn(window, wnext, win, output, out, next, base);
        }
      case Match(dist, len) =>
        next := FastStoreMatch(window, wnext, whave, output, beg, out, dist, len, base);
    }
  }

  method FastStoreMatch(window: array<byte>, wnext: nat, whave: nat, output: array<byte>, beg: nat, out: nat,
                        dist: nat, len: nat,
                        ghost base: seq<byte>)
    returns (next: nat)
    requires TokenFits(Match(dist, len)) && beg <= out && out + MAX_LENGTH <= output.Length
    requires wnext <= window.Length && whave <= window.Length && !TooFar(Match(dist, len), whave, out - beg)
    modifies output
    ensures next == out + len <= out + MAX_LENGTH && OnlyChanged(old(output[..]), output[..], out, next - out)
    ensures var text := old(base + output[beg..out]);
            old(Kept(window, wnext, whave, output, beg, out, base))
            && IsNear(window, output, |text|, Match(dist, len)) ==>
              && Kept(window, wnext, whave, output, beg, next, base)
              && base + output[beg..next] == Copy(text, dist, len)
  {
    ghost var a, win, text := output[..], window[..], base + output[beg..out];
    ghost var fine := Kept(window, wnext, whave, output, beg, out, base)
                      && IsNear(window, output, |text|, Match(dist, len));
    hide CopiedTo, Copy;
    FastCopy(window, wnext, output, beg, out, dist, len);
    next := out + len;
    if fine {
      ghost var m := if window != output then whave else if base == [] then 0 else window.Length - out;
      assert Older(win, wnext, m, base);
      assert Beyond(dist, out - beg) <= m;
      CopiedIsMatch(win, wnext, m, base, a, output[..], beg, out, dist, len);
      assert a[beg..out] == old(output[beg..out]);
      assert output[..][beg..next] == output[beg..next];
      if window == output && base != [] {
        KeptOn(window, wnext, win, output, out, next, base);
      }
    }
  }

  /** Why decoding stopped, from what the stream v holds next. */
  ghost predicate Stopped(t: Tables, v: nat, mode: Mode, reach: nat) {
    match mode
    case LEN => true
    case TYPE => Next(t, v).BlockEnd?
    case BAD(BadLengthCode) => Next(t, v) == NoLength
    case BAD(BadDistanceCode) => Next(t, v) == NoDistance
    case BAD(TooFarBack) => Next(t, v).Found? && Next(t, v).token.Match? && Next(t, v).token.dist > reach
  }

  /** The reader is past the n bits read from v, and past what ended the run. */
  ghost predicate Placed(t: Tables, v: nat, n: nat, mode: Mode, reach: nat, start: nat, at: nat, ahead: nat) {
    && Stopped(t, High(v, n), mode, reach) && start + n <= at
    && (mode == LEN ==> at == start + n && ahead == High(v, n))
    && (mode == TYPE ==>
          at == start + n + Taken(Next(t, High(v, n))) && ahead == High(v, n + Taken(Next(t, High(v, n)))))
  }

  /** Where decoding stands: the n bits read from v are the symbols ts. */
  ghost predicate Progress(t: Tables, v: nat, ts: seq<Token>, n: nat, mode: Mode, reach: nat, start: nat, at: nat,
                           ahead: nat) {
    Reads(t, v, ts, n) && Placed(t, v, n, mode, reach, start, at, ahead)
  }

  lemma ProgressStarts(t: Tables, v: nat, reach: nat, start: nat)
    ensures Progress(t, v, [], 0, LEN, reach, start, start, v)
  {
    Nothing(v);
  }

  /** One more symbol, kept; or the end of the run. */
  lemma ProgressGoesOn(t: Tables, v: nat, ts: seq<Token>, n: nat, r1: nat, start: nat, at: nat, w: nat, r2: nat,
                       s: Symbolic, at2: nat, w2: nat)
    requires Progress(t, v, ts, n, LEN, r1, start, at, w)
    requires at <= at2 && Tells(Next(t, w), s)
    requires s.Sym? || s.End? ==> at2 == at + Taken(Next(t, w)) && w2 == High(w, Taken(Next(t, w)))
    ensures s.Sym? ==> Progress(t, v, ts + [s.token], n + Taken(Next(t, w)), LEN, r2, start, at2, w2)
    ensures s.End? ==> Progress(t, v, ts, n, TYPE, r2, start, at2, w2)
    ensures s.Bad? && s.fault != TooFarBack ==> Progress(t, v, ts, n, BAD(s.fault), r2, start, at2, w2)
    ensures s.Sym? && s.token.Match? && s.token.dist > r2 ==> Progress(t, v, ts, n, BAD(TooFarBack), r2, start, at2, w2)
  {
    hide Low, High, Pow2, Next, Reads;
    var k := Taken(Next(t, w));
    TwoSteps(v, n, k);
    if s.Sym? { ReadsMore(t, v, ts, n, s.token, k); }
  }

  lemma SymFits(t: Tables, w: nat, s: Symbolic)
    requires Usable(t) && Tells(Next(t, w), s) && s.Sym?
    ensures TokenFits(s.token) && Taken(Next(t, w)) >= 1
  {
    hide Next, Usable;
    NextFits(t, w);
  }

  /** The output holds the text after ts, unless a match reached back too far for a circular window. */
  ghost predicate Shown(window: array<byte>, wnext: nat, whave: nat, output: array<byte>, beg: nat, out: nat,
                        base: seq<byte>, text: seq<byte>, ts: seq<Token>)
    reads window, output
  {
    && beg <= out <= output.Length
    && (window != output || Near(text, window.Length, ts) ==>
          Kept(window, wnext, whave, output, beg, out, base) && base + output[beg..out] == Replay(text, ts))
  }

  lemma StoreShows(window: array<byte>, output: array<byte>, text: seq<byte>, ts: seq<Token>, s: Token)
    requires window != output || Near(text, window.Length, ts + [s])
    ensures window != output || Near(text, window.Length, ts)
    ensures IsNear(window, output, |Replay(text, ts)|, s)
    ensures Replay(text, ts + [s]) == Apply(Replay(text, ts), s)
  {
    ReplayNext(text, ts, s);
    if window == output { NearNext(text, window.Length, ts, s); }
  }

  lemma OnlyMoreChanged(a: seq<byte>, b: seq<byte>, c: seq<byte>, start: nat, out: nat, next: nat)
    requires start <= out <= next && OnlyChanged(a, b, start, out - start) && OnlyChanged(b, c, out, next - out)
    ensures OnlyChanged(a, c, start, next - start)
  {
  }

  /** Puts one decoded symbol into the output. */
  method FastPut(window: array<byte>, wnext: nat, whave: nat, output: array<byte>, beg: nat, start: nat, out: nat,
                 s: Token,
                 ghost base: seq<byte>, ghost text: seq<byte>, ghost ts: seq<Token>, ghost a: seq<byte>)
    returns (next: nat)
    requires TokenFits(s) && beg <= start <= out && out + MAX_LENGTH <= output.Length && !TooFar(s, whave, out - beg)
    requires wnext <= window.Length && whave <= window.Length && OnlyChanged(a, output[..], start, out - start)
    modifies output
    ensures out <= next == out + Size(s) <= out + MAX_LENGTH && OnlyChanged(a, output[..], start, next - start)
    ensures old(Shown(window, wnext, whave, output, beg, out, base, text, ts)) ==>
              Shown(window, wnext, whave, output, beg, next, base, text, ts + [s])
  {
    hide Kept, Replay, Near, TokenFits, OnlyChanged, IsNear;
    ghost var b := output[..];
    next := FastStore(window, wnext, whave, output, beg, out, s, base);
    OnlyMoreChanged(a, b, output[..], start, out, next);
    if window != output || Near(text, window.Length, ts + [s]) {
      StoreShows(window, output, text, ts, s);
    }
  }

  /** One turn of the loop: a symbol read and put in the output, or the end of the run.  It takes at
      most six bytes of input and writes at most 258 of output. */
  method FastRound(src: Reservoir, t: Tables, window: array<byte>, wnext: nat, whave: nat, output: array<byte>,
                   beg: nat, start: nat, at: nat,
                   ghost base: seq<byte>, ghost text: seq<byte>, ghost a: seq<byte>, ghost v: nat,
                   ghost ts: seq<Token>, ghost n: nat, ghost at0: nat)
    returns (out: nat, mode: Mode, ghost us: seq<Token>, ghost m: nat)
    requires Usable(t) && src.Valid() && src.bits <= 30 && src.next + 6 <= |src.input|
    requires beg <= start <= at && at + MAX_LENGTH <= output.Length && wnext <= window.Length && whave <= window.Length
    requires OnlyChanged(a, output[..], start, at - start)
    requires Progress(t, v, ts, n, LEN, whave + (at - beg), at0, src.At(), src.Ahead())
    requires at == start + Produced(ts) && Allowed(whave, start - beg, ts)
    modifies src, output
    ensures src.Valid() && src.bits <= 30 && old(src.next) <= src.next <= old(src.next) + 6
    ensures old(src.At()) <= src.At() && (mode == LEN ==> old(src.At()) < src.At())
    ensures at <= out <= at + MAX_LENGTH && out <= output.Length && OnlyChanged(a, output[..], start, out - start)
    ensures out == start + Produced(us) && Allowed(whave, start - beg, us)
    ensures Progress(t, v, us, m, mode, whave + (out - beg), at0, src.At(), src.Ahead())
    ensures old(Shown(window, wnext, whave, output, beg, at, base, text, ts)) ==>
              Shown(window, wnext, whave, output, beg, out, base, text, us)
  {
    ghost var w, was := src.Ahead(), src.At();
    hide *;
    var s := FastItem(src, t, w);
    out, us, m := at, ts, n;
    match s {
      case Sym(token) =>
        SymFits(t, w, s);
        FarIsFar(token, whave, at - beg);
        AllowedNext(whave, start - beg, ts, token);
        if TooFar(token, whave, at - beg) {
          mode := BAD(TooFarBack);
        } else {
          out := FastPut(window, wnext, whave, output, beg, start, at, token, base, text, ts, a);
          mode, us, m := LEN, ts + [token], n + Taken(Next(t, w));
        }
      case End =>
        mode := TYPE;
      case Bad(fault) =>
        ReadingNeverFar(Next(t, w), s);
        mode := BAD(fault);
    }
    ProgressGoesOn(t, v, ts, n, whave + (at - beg), at0, was, w, whave + (out - beg), s, src.At(), src.Ahead());
  }

  lemma FarIsFar(s: Token, whave: nat, have: nat)
    ensures TooFar(s, whave, have) <==> s.Match? && s.dist > whave + have
  {
  }

  lemma ReadingNeverFar(item: Item, s: Symbolic)
    requires Tells(item, s)
    ensures s.Bad? ==> s.fault != TooFarBack
  {
  }

  /** Decodes while six bytes of input and room for the longest match are left. */
  method InflateFast(src: Reservoir, t: Tables, window: array<byte>, wnext: nat, whave: nat, output: array<byte>,
                     beg: nat, start: nat,
                     ghost base: seq<byte>, ghost v: nat)
    returns (out: nat, mode: Mode, ghost ts: seq<Token>, ghost n: nat)
    requires Usable(t) && src.Valid() && src.bits < 8 && src.Ahead() == v
    requires beg <= start && start + MAX_LENGTH <= output.Length && src.next + 6 <= |src.input|
    requires wnext <= window.Length && whave <= window.Length
    modifies src, output
    ensures src.Valid() && src.bits < 8 && old(src.next) <= src.next
    ensures start <= out <= output.Length && OnlyChanged(old(output[..]), output[..], start, out - start)
    ensures out == start + Produced(ts) && Allowed(whave, start - beg, ts)
    ensures Progress(t, v, ts, n, mode, whave + (out - beg), old(src.At()), src.At(), src.Ahead())
    ensures mode == LEN ==> src.next + 9 > |src.input| || out + MAX_LENGTH > output.Length
    ensures mode == LEN ==> old(src.At()) < src.At()
    ensures var text := old(base + output[beg..start]);
            old(Kept(window, wnext, whave, output, beg, start, base)) ==>
              Shown(window, wnext, whave, output, beg, out, base, text, ts)
  {
    ghost var text, a, at0 := base + output[beg..start], output[..], src.At();
    ghost var known := Kept(window, wnext, whave, output, beg, start, base);
    NothingShown(window, wnext, whave, output, beg, start, base, text);
    NoneChanged(a, start);
    ProgressStarts(t, v, whave + (start - beg), at0);
    NothingAllowed(whave, start - beg);
    hide *;
    mode, out, ts, n := LEN, start, [], 0;
    while mode == LEN && src.next + 6 <= |src.input| && out + MAX_LENGTH <= output.Length
      invariant src.Valid() && src.bits <= 30
      invariant start <= out <= output.Length && OnlyChanged(a, output[..], start, out - start)
      invariant out == start + Produced(ts) && Allowed(whave, start - beg, ts)
      invariant Progress(t, v, ts, n, mode, whave + (out - beg), at0, src.At(), src.Ahead())
      invariant known ==> Shown(window, wnext, whave, output, beg, out, base, text, ts)
      invariant at0 <= src.At()
                && (at0 == src.At() && mode == LEN ==>
                      src.next + 6 <= |src.input| && out + MAX_LENGTH <= output.Length)
      decreases if mode == LEN then 1 else 0, 8 * |src.input| - src.At()
    {
      out, mode, ts, n := FastRound(src, t, window, wnext, whave, output, beg, start, out, base, text, a, v, ts, n,
                                    at0);
    }
    src.GiveBack();
  }

  lemma NothingShown(window: array<byte>, wnext: nat, whave: nat, output: array<byte>, beg: nat, start: nat,
                     base: seq<byte>, text: seq<byte>)
    requires beg <= start <= output.Length && text == base + output[beg..start]
    ensures Kept(window, wnext, whave, output, beg, start, base) ==>
              Shown(window, wnext, whave, output, beg, start, base, text, [])
  {
  }

  lemma NoneChanged(a: seq<byte>, start: nat)
    requires start <= |a|
    ensures OnlyChanged(a, a, start, 0)
  {
  }

  /** Two runs, one after the other. */
  lemma ProgressJoin(t: Tables, v: nat, ts: seq<Token>, n: nat, r1: nat, start: nat, at: nat, w: nat,
                     us: seq<Token>, m: nat, mode: Mode, r2: nat, at2: nat, w2: nat)
    requires Progress(t, v, ts, n, LEN, r1, start, at, w) && Progress(t, w, us, m, mode, r2, at, at2, w2)
    ensures Progress(t, v, ts + us, n + m, mode, r2, start, at2, w2)
  {
    hide Low, High, Pow2, Next, Reads;
    TwoSteps(v, n, m);
    TwoSteps(v, n, m + Taken(Next(t, High(w, m))));
    ReadsJoin(t, v, ts, n, us, m);
  }

  lemma ProgressNearer(t: Tables, v: nat, ts: seq<Token>, n: nat, mode: Mode, r1: nat, r2: nat, start: nat, at: nat,
                       ahead: nat)
    requires Progress(t, v, ts, n, mode, r1, start, at, ahead) && r2 <= r1
    ensures Progress(t, v, ts, n, mode, r2, start, at, ahead)
  {
    hide Reads, Next;
  }
}
