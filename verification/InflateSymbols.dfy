/** Reading one literal, match or end of block through the bit accumulator: with six bytes at hand
    nothing is checked (fast), otherwise no byte is taken before it is needed (slow). */
module InflateSymbols {
  import opened Powers
  import opened LowBits
  import opened Lz77
  import opened InflateFormat
  import opened BitReservoir

  /** The complaints about a block's data. */
  datatype Fault = BadLengthCode | BadDistanceCode | TooFarBack

  datatype Symbolic = Sym(token: Token) | End | Bad(fault: Fault) | Starved

  /** What was read is what the bits say. */
  predicate Tells(item: Item, s: Symbolic) {
    match item
    case Found(t, _) => s == Sym(t)
    case BlockEnd(_) => s == End
    case NoLength => s == Bad(BadLengthCode)
    case NoDistance => s == Bad(BadDistanceCode)
  }

  /** A symbol of the format, and no invalid code. */
  predicate Proper(item: Item) {
    item.Found? || item.BlockEnd?
  }

  lemma ProperIs(item: Item)
    ensures Proper(item) <==> item.Found? || item.BlockEnd?
  {
  }

  function Taken(item: Item): nat {
    match item
    case Found(_, n) => n
    case BlockEnd(n) => n
    case _ => 0
  }

  // ---- fast ----

  lemma LinkNeverTwice(c: seq<Entry>, root: nat, v: nat, lengths: bool)
    requires Complete(c, root, lengths) && IsLink(RootCell(c, root, v))
    ensures var e := RootCell(c, root, v);
            && e.bits == root && e.op <= LONGEST - root && !IsLink(LinkedCell(c, e, v))
            && LinkedCell(c, e, v).bits <= e.op
            && Cell(c, e.val, Low(High(v, root), e.op)) == c[e.val + Low(High(v, root), e.op)]
            && e.val + Low(High(v, root), e.op) < |c|
  {
    hide Pow2, Low, High;
    assert RootFits(c, root, RootCell(c, root, v), lengths);
  }

  lemma RootCellIs(c: seq<Entry>, root: nat, v: nat, lengths: bool)
    requires Complete(c, root, lengths)
    ensures Low(v, root) < |c| && RootCell(c, root, v) == c[Low(v, root)] && RootCell(c, root, v).bits <= root <= 15
  {
    hide Pow2, Low, High;
    assert RootFits(c, root, RootCell(c, root, v), lengths);
  }

  predicate GoesOn(e: Entry) {
    e.op != 0 && !HasBit(e.op, 16) && !HasBit(e.op, 64)
  }

  lemma FitsDoesNotGoOn(e: Entry, lengths: bool)
    ensures Fits(e, lengths) ==> !GoesOn(e) && !IsLink(e)
    ensures IsLink(e) ==> GoesOn(e)
  {
    hide Span;
  }

  /** Looks a symbol up in the two levels of a table. */
  method FastSymbol(src: Reservoir, c: seq<Entry>, root: nat, ghost lengths: bool, ghost v: nat) returns (here: Entry)
    requires src.Valid() && src.bits >= 15 && Complete(c, root, lengths) && src.Ahead() == v
    modifies src`hold, src`bits
    ensures src.Valid() && here == Symbol(c, root, v).0 && 1 <= Symbol(c, root, v).1 <= 15
    ensures src.At() == old(src.At()) + Symbol(c, root, v).1 && src.Ahead() == High(v, Symbol(c, root, v).1)
    ensures src.bits == old(src.bits) - Symbol(c, root, v).1
  {
    hide Pow2, Low, High, Holds, Remaining, Complete, Fits, HasBit;
    SymbolFits(c, root, v, lengths);
    RootCellIs(c, root, v, lengths);
    here := c[src.Peek(root)];
    ghost var e := here;
    FitsDoesNotGoOn(e, lengths);
    if IsLink(e) { LinkNeverTwice(c, root, v, lengths); } else { assert Fits(e, lengths); }
    src.Drop(here.bits);
    if GoesOn(here) {
      here := c[here.val + src.Peek(here.op)];
      src.Drop(here.bits);
      TwoSteps(v, e.bits, here.bits);
    }
  }

  /** Makes sure of fifteen bits, two bytes at a time. */
  method FastRefill(src: Reservoir)
    requires src.Valid() && src.bits <= 30 && (src.bits < 15 ==> src.next + 2 <= |src.input|)
    modifies src
    ensures src.Valid() && 15 <= src.bits <= 30 && src.At() == old(src.At()) && src.Ahead() == old(src.Ahead())
    ensures src.next == old(src.next) + if old(src.bits) < 15 then 2 else 0
    ensures src.bits == old(src.bits) + if old(src.bits) < 15 then 16 else 0
  {
    hide Pow2, Low, High, Holds, Remaining;
    if src.bits < 15 {
      src.PullByte();
      src.PullByte();
    }
  }

  /** Adds op extra bits to a base. */
  method TakeExtra(src: Reservoir, base: nat, op: nat) returns (r: nat)
    requires src.Valid() && op <= src.bits
    modifies src`hold, src`bits
    ensures src.Valid() && r == base + Low(old(src.Ahead()), op)
    ensures src.At() == old(src.At()) + op && src.bits == old(src.bits) - op
    ensures src.Ahead() == High(old(src.Ahead()), op)
  {
    r := base + src.Peek(op);
    src.Drop(op);
  }

  /** The distance after a length: at most fifteen bits of code and thirteen extra bits. */
  method FastDistance(src: Reservoir, t: Tables, len: nat, ghost v: nat, ghost m: nat) returns (s: Symbolic)
    requires src.Valid() && 15 <= src.bits <= 30 && Usable(t) && src.Ahead() == High(v, m)
    requires src.next + (if src.bits >= 28 then 0 else if src.bits >= 20 then 1 else 2) <= |src.input|
    modifies src
    ensures src.Valid() && src.bits <= 30 && Tells(NextDistance(t, v, m, len), s) && (s.Sym? || s.Bad?)
    ensures old(src.At()) <= src.At()
    ensures old(src.next) <= src.next <= old(src.next)
            + (if old(src.bits) >= 28 then 0 else if old(src.bits) >= 20 then 1 else 2)
    ensures s.Sym? ==> src.At() == old(src.At()) + Taken(NextDistance(t, v, m, len)) - m
    ensures s.Sym? ==> src.Ahead() == High(v, Taken(NextDistance(t, v, m, len)))
  {
    hide Pow2, Low, High, Holds, Remaining, Complete, Fits, HasBit, Symbol;
    var here := FastSymbol(src, t.dist, t.distRoot, false, High(v, m));
    ghost var (d, k) := Symbol(t.dist, t.distRoot, High(v, m));
    TwoSteps(v, m, k);
    SymbolFits(t.dist, t.distRoot, High(v, m), false);
    if HasBit(here.op, 16) {
      ValueFits(d, v, m + k, false);
      var op: nat := here.op % 16;
      if src.bits < op {
        src.PullByte();
        if src.bits < op {
          src.PullByte();
        }
      }
      TwoSteps(v, m + k, op);
      var dist := TakeExtra(src, here.val, op);
      s := Sym(Match(dist, len));
    } else {
      s := Bad(BadDistanceCode);
    }
  }

  /** The length of a match: up to five extra bits. */
  method FastLength(src: Reservoir, here: Entry, ghost v: nat, ghost n: nat) returns (len: nat)
    requires src.Valid() && src.bits <= 30 && LengthFits(here) && IsBase(here) && src.Ahead() == High(v, n)
    requires src.bits < 5 ==> src.next < |src.input|
    modifies src
    ensures src.Valid() && len == Value(here, v, n) && src.At() == old(src.At()) + here.op % 16 && src.bits <= 30
    ensures src.next == old(src.next) || (old(src.bits) < 5 && src.next == old(src.next) + 1)
    ensures here.op % 16 <= 5
    ensures src.Ahead() == High(v, n + here.op % 16)
  {
    hide Pow2, Low, High, Holds, Remaining, Complete;
    ValueFits(here, v, n, true);
    var op: nat := here.op % 16;
    TwoSteps(v, n, op);
    Nothing(High(v, n));
    len := here.val;
    if op != 0 {
      if src.bits < op {
        src.PullByte();
      }
      len := TakeExtra(src, len, op);
    }
  }

  /** What is left of a match after the code of its length: at most four more bytes. */
  method FastMatch(src: Reservoir, t: Tables, here: Entry, ghost v: nat, ghost n: nat) returns (s: Symbolic)
    requires src.Valid() && src.bits <= 30 && src.next + (if src.bits == 0 then 5 else 4) <= |src.input| && Usable(t)
    requires LengthFits(here) && IsBase(here) && src.Ahead() == High(v, n)
    modifies src
    ensures src.Valid() && src.bits <= 30 && old(src.At()) <= src.At()
    ensures old(src.next) <= src.next <= old(src.next) + if old(src.bits) == 0 then 5 else 4
    ensures var item := NextDistance(t, v, n + here.op % 16, Value(here, v, n));
            && Tells(item, s) && (s.Sym? || s.Bad?)
            && (s.Sym? ==> src.At() == old(src.At()) + Taken(item) - n && src.Ahead() == High(v, Taken(item)))
  {
    hide Pow2, Low, High, Holds, Remaining, Complete, HasBit, Symbol, NextDistance, Value, LengthFits, Tells;
    var len := FastLength(src, here, v, n);
    FastRefill(src);
    s := FastDistance(src, t, len, v, n + here.op % 16);
  }

  /** One literal, match or end of block, out of at most six bytes of input. */
  method FastItem(src: Reservoir, t: Tables, ghost v: nat) returns (s: Symbolic)
    requires src.Valid() && src.bits <= 30 && src.next + 6 <= |src.input| && Usable(t) && src.Ahead() == v
    modifies src
    ensures src.Valid() && src.bits <= 30 && Tells(Next(t, v), s) && !s.Starved?
    ensures old(src.next) <= src.next <= old(src.next) + 6 && old(src.At()) <= src.At()
    ensures s.Sym? || s.End? ==>
              src.At() == old(src.At()) + Taken(Next(t, v)) && src.Ahead() == High(v, Taken(Next(t, v)))
  {
    hide *;
    NextCases(t, v);
    FastRefill(src);
    var here := FastSymbol(src, t.len, t.lenRoot, true, v);
    ghost var n := Symbol(t.len, t.lenRoot, v).1;
    if here.op == 0 {
      s := Sym(Literal(here.val));
    } else if HasBit(here.op, 16) {
      s := FastMatch(src, t, here, v, n);
    } else if HasBit(here.op, 32) {
      s := End;
    } else {
      s := Bad(BadLengthCode);
    }
  }

  /** Next, by the cell its code leads to. */
  lemma NextCases(t: Tables, v: nat)
    requires Usable(t)
    ensures var (e, n) := Symbol(t.len, t.lenRoot, v);
            && Complete(t.len, t.lenRoot, true)
            && (e.op == 0 ==> e.val < 256 && Tells(Next(t, v), Sym(Literal(e.val))) && Taken(Next(t, v)) == n)
            && (e.op != 0 && HasBit(e.op, 16) ==>
                  IsBase(e) && LengthFits(e) && Next(t, v) == NextDistance(t, v, n + e.op % 16, Value(e, v, n)))
            && (e.op != 0 && !HasBit(e.op, 16) && HasBit(e.op, 32) ==> Tells(Next(t, v), End) && Taken(Next(t, v)) == n)
            && (e.op != 0 && !HasBit(e.op, 16) && !HasBit(e.op, 32) ==> Tells(Next(t, v), Bad(BadLengthCode)))
  {
    hide Pow2, Low, High, Complete, Symbol, NextDistance, Value, HasBit;
    SymbolFits(t.len, t.lenRoot, v, true);
    LiteralFits(Symbol(t.len, t.lenRoot, v).0);
  }

  lemma LiteralFits(e: Entry)
    requires Fits(e, true)
    ensures e.op == 0 ==> e.val < 256
  {
    hide Span;
  }

  // ---- slow ----

  /** A cell reached with zeros for the bits not held is right if its code is among those held. */
  lemma RootAmongHeld(c: seq<Entry>, root: nat, v: nat, bits: nat, lengths: bool)
    requires Complete(c, root, lengths) && RootCell(c, root, Low(v, bits)).bits <= bits
    ensures RootCell(c, root, Low(v, bits)) == RootCell(c, root, v)
  {
    hide Pow2, Low, High, Fits;
    var e := RootCell(c, root, Low(v, bits));
    RootCellIs(c, root, Low(v, bits), lengths);
    Shorter(Low(v, bits), root, e.bits);
    Shorter(v, bits, e.bits);
    Shorter(v, root, e.bits);
  }

  lemma LinkedAmongHeld(c: seq<Entry>, root: nat, v: nat, bits: nat, lengths: bool)
    requires Complete(c, root, lengths) && IsLink(RootCell(c, root, v))
    requires var e := RootCell(c, root, v);
             e.bits <= bits && e.bits + Cell(c, e.val, HeldIndex(Low(v, bits), e.bits, e.op)).bits <= bits
    ensures var e := RootCell(c, root, v); Cell(c, e.val, HeldIndex(Low(v, bits), e.bits, e.op)) == LinkedCell(c, e, v)
  {
    hide Pow2, Low, High, Fits;
    var e := RootCell(c, root, v);
    assert RootFits(c, root, e, lengths);
    var h := Low(v, bits);
    Window(h, e.bits, e.op);
    var s := Cell(c, e.val, Low(High(h, e.bits), e.op));
    Shorter(High(h, e.bits), e.op, s.bits);
    Window(v, e.bits, bits - e.bits);
    Shorter(High(v, e.bits), bits - e.bits, s.bits);
    Shorter(High(v, e.bits), e.op, s.bits);
  }

  /** A code not found among the bits held is longer than they are. */
  lemma NotYetHeld(c: seq<Entry>, root: nat, v: nat, bits: nat, lengths: bool)
    requires Complete(c, root, lengths) && Symbol(c, root, v).1 <= bits
    ensures Symbol(c, root, Low(v, bits)) == Symbol(c, root, v)
  {
    hide Pow2, Low, High, Complete, Symbol;
    Shorter(v, bits, Symbol(c, root, v).1);
    SymbolIsLocal(c, root, v, Low(v, bits), lengths);
  }

  lemma RootNotYet(c: seq<Entry>, root: nat, v: nat, bits: nat, lengths: bool)
    requires Complete(c, root, lengths) && RootCell(c, root, Low(v, bits)).bits > bits
    ensures Symbol(c, root, v).1 > bits
  {
    hide Pow2, Low, High, Complete, RootCell, LinkedCell;
    if Symbol(c, root, v).1 <= bits { NotYetHeld(c, root, v, bits, lengths); }
  }

  lemma LinkedNotYet(c: seq<Entry>, root: nat, v: nat, bits: nat, lengths: bool)
    requires Complete(c, root, lengths) && IsLink(RootCell(c, root, v)) && RootCell(c, root, v).bits <= bits
    requires var e := RootCell(c, root, v); e.bits + Cell(c, e.val, HeldIndex(Low(v, bits), e.bits, e.op)).bits > bits
    ensures Symbol(c, root, v).1 > bits
  {
    hide Pow2, Low, High, Complete, RootCell, HeldIndex, Cell;
    var e := RootCell(c, root, v);
    LinkIndexFits(c, root, v, v, lengths);
    if Symbol(c, root, v).1 <= bits {
      Shorter(v, bits, e.bits);
      HeldIndexIs(Low(v, bits), e.bits, e.op);
      SameRoot(c, root, v, bits, lengths);
      NotYetHeld(c, root, v, bits, lengths);
    }
  }

  lemma SameRoot(c: seq<Entry>, root: nat, v: nat, bits: nat, lengths: bool)
    requires Complete(c, root, lengths) && IsLink(RootCell(c, root, v)) && RootCell(c, root, v).bits <= bits
    ensures RootCell(c, root, Low(v, bits)) == RootCell(c, root, v)
  {
    hide Pow2, Low, High, Fits;
    assert RootFits(c, root, RootCell(c, root, v), lengths);
    Shorter(v, bits, root);
  }

  method SlowRoot(src: Reservoir, c: seq<Entry>, root: nat, ghost lengths: bool, ghost v: nat)
    returns (ok: bool, here: Entry)
    requires src.Valid() && src.bits <= 22 && Complete(c, root, lengths) && src.Ahead() == v
    modifies src
    ensures src.Valid() && src.bits <= 22 && old(src.next) <= src.next && src.At() == old(src.At()) && src.Ahead() == v
    ensures here == RootCell(c, root, v) && (src.bits == old(src.bits) || src.bits < Symbol(c, root, v).1 + 8)
    ensures if ok then here.bits <= src.bits else src.next >= |src.input| && src.bits < here.bits
  {
    hide *;
    ok := true;
    RootCellIs(c, root, Low(v, src.bits), lengths);
    here := c[src.PeekShort(root)];
    while here.bits > src.bits && src.next < |src.input|
      invariant src.Valid() && src.bits <= 22 && old(src.next) <= src.next && src.At() == old(src.At())
                && src.Ahead() == v
      invariant here == RootCell(c, root, Low(v, src.bits)) && here.bits <= 15
      invariant src.bits == old(src.bits) || src.bits < Symbol(c, root, v).1 + 8
      decreases |src.input| - src.next
    {
      RootNotYet(c, root, v, src.bits, lengths);
      src.PullByte();
      RootCellIs(c, root, Low(v, src.bits), lengths);
      here := c[src.PeekShort(root)];
    }
    ok := here.bits <= src.bits;
    if ok {
      RootAmongHeld(c, root, v, src.bits, lengths);
    } else {
      src.AllHeld();
    }
  }

  /** The same on the second level, past the bits of the first. */
  method SlowLinked(src: Reservoir, c: seq<Entry>, root: nat, last: Entry, ghost lengths: bool, ghost v: nat)
    returns (ok: bool, here: Entry)
    requires src.Valid() && src.bits <= 22 && Complete(c, root, lengths) && src.Ahead() == v
    requires last == RootCell(c, root, v) && IsLink(last) && last.bits <= src.bits
    modifies src
    ensures src.Valid() && src.bits <= 22 && old(src.next) <= src.next && src.At() == old(src.At()) && src.Ahead() == v
    ensures here == LinkedCell(c, last, v) && (src.bits == old(src.bits) || src.bits < Symbol(c, root, v).1 + 8)
    ensures if ok then last.bits + here.bits <= src.bits
            else src.next >= |src.input| && src.bits < last.bits + here.bits
  {
    hide *;
    LinkIndexFits(c, root, v, Low(v, src.bits), lengths);
    here := c[last.val + src.PeekPast(last.bits, last.op)];
    while last.bits + here.bits > src.bits && src.next < |src.input|
      invariant src.Valid() && src.bits <= 22 && old(src.next) <= src.next && src.At() == old(src.At())
                && src.Ahead() == v
      invariant last.bits <= src.bits
      invariant here == Cell(c, last.val, HeldIndex(Low(v, src.bits), last.bits, last.op))
                && last.bits + here.bits <= 15
      invariant src.bits == old(src.bits) || src.bits < Symbol(c, root, v).1 + 8
      decreases |src.input| - src.next
    {
      LinkedNotYet(c, root, v, src.bits, lengths);
      src.PullByte();
      LinkIndexFits(c, root, v, Low(v, src.bits), lengths);
      here := c[last.val + src.PeekPast(last.bits, last.op)];
    }
    ok := last.bits + here.bits <= src.bits;
    if ok {
      LinkedAmongHeld(c, root, v, src.bits, lengths);
    } else {
      src.AllHeld();
      HeldIndexIs(v, last.bits, last.op);
      LinkedCellIs(c, last, v);
    }
  }

  lemma HeldIndexIs(v: nat, a: nat, b: nat)
    ensures HeldIndex(v, a, b) == Low(High(v, a), b)
  {
    hide Low, High;
    Window(v, a, b);
  }

  lemma LinkedCellIs(c: seq<Entry>, e: Entry, v: nat)
    ensures LinkedCell(c, e, v) == Cell(c, e.val, Low(High(v, e.bits), e.op))
  {
  }

  lemma LinkIndexFits(c: seq<Entry>, root: nat, v: nat, w: nat, lengths: bool)
    requires Complete(c, root, lengths) && IsLink(RootCell(c, root, v))
    ensures var e := RootCell(c, root, v);
            var i := HeldIndex(w, e.bits, e.op);
            e.val + i < |c| && Cell(c, e.val, i) == c[e.val + i] && e.bits + c[e.val + i].bits <= 15
  {
    hide Pow2, Low, High;
    var e := RootCell(c, root, v);
    assert RootFits(c, root, e, lengths);
    Window(w, e.bits, e.op);
  }

  /** Looks a symbol up without taking in a byte it does not need; fails only when the input
      ends before the symbol does. */
  method SlowSymbol(src: Reservoir, c: seq<Entry>, root: nat, ghost lengths: bool, ghost v: nat)
    returns (ok: bool, here: Entry)
    requires src.Valid() && src.bits < 8 && Complete(c, root, lengths) && src.Ahead() == v
    modifies src
    ensures src.Valid() && src.bits <= 22 && (ok ==> src.bits < 8) && old(src.next) <= src.next
            && old(src.At()) <= src.At()
    ensures var (e, n) := Symbol(c, root, v);
            if ok then here == e && src.At() == old(src.At()) + n && src.Ahead() == High(v, n)
            else old(src.At()) + n > 8 * |src.input|
  {
    hide Pow2, Low, High, Complete, Holds, Remaining, RootCell, LinkedCell;
    ok, here := SlowRoot(src, c, root, lengths, v);
    if !ok { return; }
    if here.op != 0 && here.op < 16 {
      var last := here;
      ok, here := SlowLinked(src, c, root, last, lengths, v);
      if !ok { return; }
      src.Drop(last.bits);
      TwoSteps(v, last.bits, here.bits);
    }
    src.Drop(here.bits);
  }

  method NeedBits(src: Reservoir, n: nat, ghost v: nat) returns (ok: bool)
    requires src.Valid() && src.bits < 8 && n <= 15 && src.Ahead() == v
    modifies src
    ensures src.Valid() && src.bits < n + 8 && old(src.next) <= src.next && src.At() == old(src.At())
            && src.Ahead() == v
    ensures if ok then n <= src.bits else src.At() + n > 8 * |src.input|
  {
    hide Pow2, Low, High, Holds, Remaining;
    while src.bits < n
      invariant src.Valid() && src.bits < n + 8 && old(src.next) <= src.next && src.At() == old(src.At())
                && src.Ahead() == v
      decreases |src.input| - src.next
    {
      if src.next >= |src.input| { return false; }
      src.PullByte();
    }
    ok := true;
  }

  /** The value of a length or distance: its base and the extra bits, if it has any. */
  method SlowValue(src: Reservoir, here: Entry, ghost lengths: bool, ghost v: nat, ghost n: nat)
    returns (ok: bool, r: nat)
    requires src.Valid() && src.bits < 8 && Fits(here, lengths) && IsBase(here) && src.Ahead() == High(v, n)
    modifies src
    ensures src.Valid() && src.bits <= 22 && (ok ==> src.bits < 8) && old(src.next) <= src.next
            && old(src.At()) <= src.At()
    ensures ok ==>
              r == Value(here, v, n) && src.At() == old(src.At()) + here.op % 16
              && src.Ahead() == High(v, n + here.op % 16)
    ensures !ok ==> old(src.At()) + here.op % 16 > 8 * |src.input|
  {
    hide Pow2, Low, High, Holds, Remaining, Complete, Fits;
    ValueFits(here, v, n, lengths);
    var extra: nat := here.op % 16;
    TwoSteps(v, n, extra);
    Nothing(High(v, n));
    r := here.val;
    ok := true;
    if extra != 0 {
      ok := NeedBits(src, extra, High(v, n));
      if !ok { return; }
      r := TakeExtra(src, r, extra);
    }
  }

  lemma DistanceNeverEnds(t: Tables, v: nat, m: nat, len: nat)
    ensures !NextDistance(t, v, m, len).BlockEnd?
  {
  }

  /** What remains once literals, ends of block and invalid codes are told apart by their bits. */
  lemma EndCases(t: Tables, v: nat)
    requires Usable(t)
    ensures var (e, n) := Symbol(t.len, t.lenRoot, v);
            && (e.op != 0 && HasBit(e.op, 32) ==> !HasBit(e.op, 16))
            && (HasBit(e.op, 64) && !HasBit(e.op, 32) ==> e.op != 0 && !HasBit(e.op, 16))
            && (e.op != 0 && !HasBit(e.op, 32) && !HasBit(e.op, 64) ==> HasBit(e.op, 16) && Fits(e, true))
            && (Proper(Next(t, v)) ==> n <= Taken(Next(t, v)))
            && (Next(t, v).BlockEnd? ==> e.op != 0 && HasBit(e.op, 32))
            && (IsBase(e) && Next(t, v).Found? ==> n + e.op % 16 <= Taken(Next(t, v)))
  {
    hide Pow2, Low, High, Complete, Symbol, NextDistance, Value, Span;
    SymbolFits(t.len, t.lenRoot, v, true);
    var (e, n) := Symbol(t.len, t.lenRoot, v);
    DistanceNeverEnds(t, v, n + e.op % 16, Value(e, v, n));
    if Next(t, v).Found? && IsBase(e) { DistanceComesLast(t, v, n + e.op % 16, Value(e, v, n)); }
  }

  lemma DistanceCases(t: Tables, v: nat, m: nat, len: nat)
    requires Usable(t)
    ensures var (d, k) := Symbol(t.dist, t.distRoot, High(v, m));
            && Complete(t.dist, t.distRoot, false) && DistanceFits(d)
            && (HasBit(d.op, 64) ==> NextDistance(t, v, m, len) == NoDistance)
            && (!HasBit(d.op, 64) ==> IsBase(d))
            && (!HasBit(d.op, 64) ==>
                  NextDistance(t, v, m, len) == Found(Match(Value(d, v, m + k), len), m + k + d.op % 16))
  {
    hide Pow2, Low, High, Complete, Symbol, Value, Span;
    SymbolFits(t.dist, t.distRoot, High(v, m), false);
  }

  method SlowDistance(src: Reservoir, t: Tables, len: nat, ghost v: nat, ghost m: nat) returns (s: Symbolic)
    requires src.Valid() && src.bits < 8 && Usable(t) && src.Ahead() == High(v, m)
    modifies src
    ensures src.Valid() && src.bits <= 22 && (s.Sym? ==> src.bits < 8) && old(src.next) <= src.next
            && old(src.At()) <= src.At()
    ensures var item := NextDistance(t, v, m, len);
            && (s.Starved? || (Tells(item, s) && (s.Sym? || s.Bad?)))
            && (s.Sym? ==> src.At() == old(src.At()) + Taken(item) - m && src.Ahead() == High(v, Taken(item)))
            && (s.Starved? && item.Found? ==> old(src.At()) + Taken(item) - m > 8 * |src.input|)
  {
    hide Pow2, Low, High, Holds, Remaining, Complete, HasBit, Symbol, NextDistance, Value, DistanceFits, IsBase;
    DistanceCases(t, v, m, len);
    var ok, here := SlowSymbol(src, t.dist, t.distRoot, false, High(v, m));
    if !ok { return Starved; }
    if HasBit(here.op, 64) { return Bad(BadDistanceCode); }
    ghost var k := Symbol(t.dist, t.distRoot, High(v, m)).1;
    TwoSteps(v, m, k);
    var offset;
    ok, offset := SlowValue(src, here, false, v, m + k);
    if !ok { return Starved; }
    s := Sym(Match(offset, len));
  }

  /** One literal, match or end of block; starved only when the input ends inside it. */
  method SlowItem(src: Reservoir, t: Tables, ghost v: nat) returns (s: Symbolic)
    requires src.Valid() && src.bits < 8 && Usable(t) && src.Ahead() == v
    modifies src
    ensures src.Valid() && (s.Sym? || s.End? ==> src.bits < 8) && old(src.next) <= src.next && old(src.At()) <= src.At()
    ensures s.Starved? || Tells(Next(t, v), s)
    ensures s.Sym? || s.End? ==>
              src.At() == old(src.At()) + Taken(Next(t, v)) && src.Ahead() == High(v, Taken(Next(t, v)))
    ensures s.Starved? && Proper(Next(t, v)) ==> old(src.At()) + Taken(Next(t, v)) > 8 * |src.input|
  {
    hide *;
    ProperIs(Next(t, v));
    NextCases(t, v);
    EndCases(t, v);
    var ok, here := SlowSymbol(src, t.len, t.lenRoot, true, v);
    ghost var n := Symbol(t.len, t.lenRoot, v).1;
    if !ok { return Starved; }
    if here.op == 0 { return Sym(Literal(here.val)); }
    if HasBit(here.op, 32) { return End; }
    if HasBit(here.op, 64) { return Bad(BadLengthCode); }
    var len;
    ok, len := SlowValue(src, here, true, v, n);
    if !ok { return Starved; }
    s := SlowDistance(src, t, len, v, n + here.op % 16);
  }
}
