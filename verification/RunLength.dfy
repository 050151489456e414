/** The first stage: runs of four to 255 equal bytes become four of them and a count.  The
    meaning of a block is given by an automaton that reads it byte by byte. */
module RunLength {
  import opened Rotations
  import opened MoveToFront

  /** After some bytes of a block: what they expand to, the last byte, and how many times it
      has been seen in a row; after four a count is due. */
  datatype Run = Run(out: seq<byte>, c: byte, m: nat)

  function TakeByte(r: Run, x: byte): Run {
    if r.m == 4 then Run(r.out + Repeat(r.c, x), r.c, 0)
    else if r.m > 0 && x == r.c then Run(r.out + [x], x, r.m + 1)
    else Run(r.out + [x], x, 1)
  }

  function Expand(s: seq<byte>): (r: Run)
    ensures r.m <= 4
  {
    if s == [] then Run([], 0, 0) else TakeByte(Expand(s[..|s| - 1]), s[|s| - 1])
  }

  /** No count is missing at the end. */
  ghost predicate Complete(s: seq<byte>) { Expand(s).m < 4 }

  lemma ExpandNext(s: seq<byte>, x: byte)
    ensures Expand(s + [x]) == TakeByte(Expand(s), x)
  {
    assert (s + [x])[..|s|] == s;
  }

  // ---- the encoder's pairs ----

  /** What is put into the block for len times ch. */
  function Pair(ch: byte, len: nat): (r: seq<byte>)
    requires len <= 255
    ensures |r| == if len < 4 then len else 5
  {
    if len < 4 then Repeat(ch, len) else Repeat(ch, 4) + [len - 4]
  }

  /** A run of ch may be put after s without joining what is there. */
  ghost predicate Apart(s: seq<byte>, ch: byte) {
    Expand(s).m == 0 || (Expand(s).m < 4 && Expand(s).c != ch)
  }

  lemma {:induction false} RunExpands(s: seq<byte>, ch: byte, k: nat)
    requires Apart(s, ch) && 1 <= k <= 4
    ensures Expand(s + Repeat(ch, k)) == Run(Expand(s).out + Repeat(ch, k), ch, k)
  {
    hide Expand;
    if k == 1 {
      assert Repeat(ch, 1) == [ch];
      ExpandNext(s, ch);
    } else {
      RunExpands(s, ch, k - 1);
      ExpandNext(s + Repeat(ch, k - 1), ch);
      assert s + Repeat(ch, k) == s + Repeat(ch, k - 1) + [ch];
      assert Expand(s).out + Repeat(ch, k) == Expand(s).out + Repeat(ch, k - 1) + [ch];
    }
  }

  /** A pair expands to its run, and another byte may follow it. */
  lemma PairExpands(s: seq<byte>, ch: byte, len: nat)
    requires Apart(s, ch) && 1 <= len <= 255
    ensures Expand(s + Pair(ch, len)) == Run(Expand(s).out + Repeat(ch, len), ch, if len < 4 then len else 0)
  {
    hide Expand;
    if len < 4 {
      RunExpands(s, ch, len);
    } else {
      RunExpands(s, ch, 4);
      ExpandNext(s + Repeat(ch, 4), len - 4);
      assert s + Pair(ch, len) == s + Repeat(ch, 4) + [len - 4];
      assert Repeat(ch, len) == Repeat(ch, 4) + Repeat(ch, len - 4);
    }
  }
}
