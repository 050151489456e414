/** The hash chains of deflate, seen against the whole input read so far: positions are counted
    from the start of the input, and base is the position of the window's first byte. */
module DeflateChains {
  import opened Rotations
  import opened Bits
  import opened Products
  import opened ByteBits
  import opened DeflateHash

  const MIN_MATCH: nat := 3
  const MAX_MATCH: nat := 258
  const MIN_LOOKAHEAD: nat := MAX_MATCH + MIN_MATCH + 1

  /** Index of the chain for the three bytes at p. */
  function Slot(bits: nat, data: seq<byte>, p: nat): (i: nat)
    requires 8 <= bits <= 16 && p + 3 <= |data|
    ensures i < TableSize(bits)
  {
    var h := HashAt(bits, data, p);
    HashInRange(bits, UpdateHash(ParamsFor(bits), UpdateHash(ParamsFor(bits), 0, data[p]), data[p + 1]), data[p + 2]);
    h as int
  }

  function HashAt(bits: nat, data: seq<byte>, p: nat): bv32
    requires 8 <= bits <= 16 && p + 3 <= |data|
  {
    Hash3(ParamsFor(bits), data[p], data[p + 1], data[p + 2])
  }

  /** Strings on one chain that agree in their first two bytes agree in the third. */
  lemma SameChainThirdByte(bits: nat, data: seq<byte>, p: nat, q: nat)
    requires 8 <= bits <= 16 && p + 3 <= |data| && q + 3 <= |data|
    requires Slot(bits, data, p) == Slot(bits, data, q) && data[p] == data[q] && data[p + 1] == data[q + 1]
    ensures data[p + 2] == data[q + 2]
  {
    hide Hash3, GoodHash, UpdateHash, ParamsFor;
    SameNumber(HashAt(bits, data, p), HashAt(bits, data, q));
    AllSizesGood(bits);
    ThirdByte(ParamsFor(bits), data[p], data[p + 1], data[p + 2], data[q + 2]);
  }

  /** The next hash is the previous one updated by one byte. */
  lemma RollNext(bits: nat, data: seq<byte>, p: nat)
    requires 8 <= bits <= 16 && p + 4 <= |data|
    ensures UpdateHash(ParamsFor(bits), HashAt(bits, data, p), data[p + 3]) == HashAt(bits, data, p + 1)
  {
    hide GoodHash, UpdateHash, ParamsFor;
    AllSizesGood(bits);
    HashForgets(ParamsFor(bits), UpdateHash(ParamsFor(bits), 0, data[p]), data[p + 1], data[p + 2], data[p + 3]);
  }

  /** A hash started from a bare byte is as good as one started from nothing. */
  lemma RollStart(bits: nat, a: byte, b: byte, c: byte)
    requires 8 <= bits <= 16
    ensures UpdateHash(ParamsFor(bits), UpdateHash(ParamsFor(bits), ByteWord(a), b), c) ==
              Hash3(ParamsFor(bits), a, b, c)
  {
    hide GoodHash, ParamsFor, ByteWord;
    AllSizesGood(bits);
    FirstByte(ParamsFor(bits), a);
  }

  // ---- what the tables say ----

  /** Positions that have been put on chains. */
  ghost predicate InsOk(data: seq<byte>, ins: set<nat>, top: nat) {
    forall q :: q in ins ==> q < top && q + 3 <= |data|
  }

  ghost predicate OnChain(bits: nat, data: seq<byte>, ins: set<nat>, q: nat, slot: nat) {
    8 <= bits <= 16 && q in ins && q + 3 <= |data| && Slot(bits, data, q) == slot
  }

  /** Every head names a string of its chain; zero names none. */
  ghost predicate HeadOk(bits: nat, data: seq<byte>, ins: set<nat>, base: nat, head: seq<nat>) {
    forall i {:trigger head[i]} :: 0 <= i < |head| && head[i] != 0 ==> OnChain(bits, data, ins, base + head[i], i)
  }

  /** Every link that has not been overwritten leads to an earlier string of the same chain. */
  ghost predicate ChainOk(bits: nat, data: seq<byte>, ins: set<nat>, base: nat, top: nat, prev: seq<nat>) {
    && |prev| > 0
    && forall p :: p in ins && p + |prev| >= top ==> LinkOk(bits, data, ins, base, p, prev[p % |prev|])
  }

  ghost predicate LinkOk(bits: nat, data: seq<byte>, ins: set<nat>, base: nat, p: nat, m: nat) {
    m != 0 ==>
      8 <= bits <= 16 && p + 3 <= |data| && base + m < p && OnChain(bits, data, ins, base + m, Slot(bits, data, p))
  }

  ghost predicate Chains(bits: nat, data: seq<byte>, ins: set<nat>, base: nat, top: nat, head: seq<nat>,
                         prev: seq<nat>) {
    && 8 <= bits <= 16 && |head| == TableSize(bits) && |prev| > 0 && base % |prev| == 0
    && InsOk(data, ins, top) && HeadOk(bits, data, ins, base, head) && ChainOk(bits, data, ins, base, top, prev)
  }

  lemma ModShift(base: nat, str: nat, w: nat)
    requires w > 0 && base % w == 0
    ensures (base + str) % w == str % w
  {
    DivModOf(base, w);
    DivModOf(str, w);
    Distribute(base / w, str / w, w);
    DivModIs(base + str, w, base / w + str / w, str % w);
  }

  lemma NearMod(p: nat, q: nat, w: nat)
    requires w > 0 && p < q < p + w
    ensures p % w != q % w
  {
    var d := q / w - p / w;
    DivModOf(p, w);
    DivModOf(q, w);
    Distribute(d, p / w, w);
    MultipleFar(d, w);
  }

  lemma NewLink(bits: nat, data: seq<byte>, ins: set<nat>, base: nat, head: seq<nat>, q: nat)
    requires HeadOk(bits, data, ins, base, head) && 8 <= bits <= 16 && q + 3 <= |data| && forall k :: k in ins ==> k < q
    requires Slot(bits, data, q) < |head|
    ensures LinkOk(bits, data, ins + {q}, base, q, head[Slot(bits, data, q)])
  {
    hide Slot;
    var h := Slot(bits, data, q);
    if head[h] != 0 { assert OnChain(bits, data, ins, base + head[h], h); }
  }

  lemma OldLink(bits: nat, data: seq<byte>, ins: set<nat>, base: nat, prev: seq<nat>, p: nat, q: nat)
    requires |prev| > 0 && LinkOk(bits, data, ins, base, p, prev[p % |prev|])
    ensures LinkOk(bits, data, ins + {q}, base, p, prev[p % |prev|])
  {
    hide Slot;
  }

  /** INSERT_STRING: a string later than all others becomes the head of its chain. */
  lemma Inserted(bits: nat, data: seq<byte>, ins: set<nat>, base: nat, top: nat, head: seq<nat>, prev: seq<nat>,
                 str: nat)
    requires Chains(bits, data, ins, base, top, head, prev)
    requires base + str >= top && base + str + 3 <= |data|
    ensures |prev| > 0 && Slot(bits, data, base + str) < |head|
    ensures var h := Slot(bits, data, base + str);
            Chains(bits, data, ins + {base + str}, base, base + str + 1, head[h := str], prev[str % |prev| := head[h]])
  {
    hide Slot;
    var q := base + str;
    var h, w := Slot(bits, data, q), |prev|;
    var ins1, head1, prev1 := ins + {q}, head[h := str], prev[str % w := head[h]];
    ModShift(base, str, w);
    forall i | 0 <= i < |head1| && head1[i] != 0 ensures OnChain(bits, data, ins1, base + head1[i], i) {
      if i != h { assert OnChain(bits, data, ins, base + head[i], i); }
    }
    forall p | p in ins1 && p + w >= q + 1 ensures LinkOk(bits, data, ins1, base, p, prev1[p % w]) {
      if p == q {
        NewLink(bits, data, ins, base, head, q);
      } else {
        NearMod(p, q, w);
        OldLink(bits, data, ins, base, prev, p, q);
      }
    }
  }

  function SlidePos(m: nat, w: nat): nat { if m >= w then m - w else 0 }

  /** The window moves on by w: positions in the tables move back by as much, and those that
      fall out are forgotten. */
  lemma Slid(bits: nat, data: seq<byte>, ins: set<nat>, base: nat, top: nat, head: seq<nat>, prev: seq<nat>,
             head1: seq<nat>, prev1: seq<nat>)
    requires Chains(bits, data, ins, base, top, head, prev)
    requires |head1| == |head| && forall i {:trigger head1[i]} :: 0 <= i < |head| ==>
               head1[i] == SlidePos(head[i], |prev|)
    requires |prev1| == |prev| && forall i {:trigger prev1[i]} :: 0 <= i < |prev| ==>
               prev1[i] == SlidePos(prev[i], |prev|)
    ensures Chains(bits, data, ins, base + |prev|, top, head1, prev1)
  {
    hide Slot;
    var w := |prev|;
    ModShift(base, w, w);
    assert w % w == 0;
    forall i | 0 <= i < |head1| && head1[i] != 0 ensures OnChain(bits, data, ins, base + w + head1[i], i) {
      assert OnChain(bits, data, ins, base + head[i], i);
    }
    forall p | p in ins && p + w >= top ensures LinkOk(bits, data, ins, base + w, p, prev1[p % w]) {
      assert LinkOk(bits, data, ins, base, p, prev[p % w]);
      assert prev1[p % w] == SlidePos(prev[p % w], w);
    }
  }

  lemma SlotGrows(bits: nat, data: seq<byte>, more: seq<byte>, p: nat)
    requires 8 <= bits <= 16 && p + 3 <= |data|
    ensures Slot(bits, data + more, p) == Slot(bits, data, p)
  {
  }

  /** More input does not disturb the chains. */
  lemma MoreInput(bits: nat, data: seq<byte>, more: seq<byte>, ins: set<nat>, base: nat, top: nat, head: seq<nat>,
                  prev: seq<nat>)
    requires Chains(bits, data, ins, base, top, head, prev)
    ensures Chains(bits, data + more, ins, base, top, head, prev)
  {
    hide Slot;
    var all := data + more;
    forall i | 0 <= i < |head| && head[i] != 0 ensures OnChain(bits, all, ins, base + head[i], i) {
      assert OnChain(bits, data, ins, base + head[i], i);
      SlotGrows(bits, data, more, base + head[i]);
    }
    forall p | p in ins && p + |prev| >= top ensures LinkOk(bits, all, ins, base, p, prev[p % |prev|]) {
      var m := prev[p % |prev|];
      assert LinkOk(bits, data, ins, base, p, m);
      if m != 0 {
        SlotGrows(bits, data, more, p);
        SlotGrows(bits, data, more, base + m);
      }
    }
  }

  /** A link followed from a string still in reach: an earlier string of the same chain. */
  lemma Followed(bits: nat, data: seq<byte>, ins: set<nat>, base: nat, top: nat, head: seq<nat>, prev: seq<nat>,
                 cur: nat, slot: nat)
    requires Chains(bits, data, ins, base, top, head, prev)
    requires OnChain(bits, data, ins, base + cur, slot) && base + cur + |prev| >= top
    ensures |prev| > 0 && LinkOk(bits, data, ins, base, base + cur, prev[cur % |prev|])
    ensures prev[cur % |prev|] != 0 ==>
              prev[cur % |prev|] < cur && OnChain(bits, data, ins, base + prev[cur % |prev|], slot)
  {
    hide Slot;
    ModShift(base, cur, |prev|);
  }

  lemma ChainsSized(bits: nat, data: seq<byte>, ins: set<nat>, base: nat, top: nat, head: seq<nat>, prev: seq<nat>)
    requires Chains(bits, data, ins, base, top, head, prev)
    ensures 8 <= bits <= 16 && |head| == TableSize(bits) && |prev| > 0 && base % |prev| == 0
  {
  }

  /** CLEAR_HASH: with all heads gone no string is on a chain, whatever the links say. */
  lemma Forgotten(bits: nat, data: seq<byte>, base: nat, head: seq<nat>, prev: seq<nat>)
    requires 8 <= bits <= 16 && |head| == TableSize(bits) && |prev| > 0 && base % |prev| == 0
    requires forall i :: 0 <= i < |head| ==> head[i] == 0
    ensures Chains(bits, data, {}, base, 0, head, prev)
  {
  }

  /** Chains begin empty. */
  lemma NoChains(bits: nat, head: seq<nat>, prev: seq<nat>)
    requires 8 <= bits <= 16 && |head| == TableSize(bits) && |prev| > 0
    requires forall i :: 0 <= i < |head| ==> head[i] == 0
    ensures Chains(bits, [], {}, 0, 0, head, prev)
  {
  }
}
