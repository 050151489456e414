/** What a sequence of literals and matches stands for (sections 3.2.3 and 3.2.5 of RFC 1951). */
module Lz77 {
  import opened Rotations

  datatype Token = Literal(c: byte) | Match(dist: nat, len: nat)

  /** len bytes copied one at a time from dist back; they may include bytes just copied. */
  function Copy(out: seq<byte>, dist: nat, len: nat): (r: seq<byte>)
    requires 0 < dist <= |out|
    ensures |r| == |out| + len
  {
    if len == 0 then out else
    var t := Copy(out, dist, len - 1);
    t + [t[|t| - dist]]
  }

  /** A match that reaches back further than there is output stands for nothing. */
  function Apply(out: seq<byte>, t: Token): seq<byte> {
    match t
    case Literal(c) => out + [c]
    case Match(d, l) => if 0 < d <= |out| then Copy(out, d, l) else out
  }

  function Expand(ts: seq<Token>): seq<byte> {
    if ts == [] then [] else Apply(Expand(ts[..|ts| - 1]), ts[|ts| - 1])
  }

  lemma ExpandNext(ts: seq<Token>, t: Token)
    ensures Expand(ts + [t]) == Apply(Expand(ts), t)
  {
    assert (ts + [t])[..|ts|] == ts;
  }

  ghost predicate Echoes(data: seq<byte>, dist: nat, k: nat)
    requires dist <= k < |data|
  {
    data[k] == data[k - dist]
  }

  /** The text repeats, at p, what it holds dist earlier, for len bytes. */
  ghost predicate Repeats(data: seq<byte>, p: nat, dist: nat, len: nat) {
    && 0 < dist <= p && p + len <= |data|
    && forall k :: p <= k < p + len ==> Echoes(data, dist, k)
  }

  lemma {:induction false} CopyFollowsText(data: seq<byte>, p: nat, dist: nat, len: nat)
    requires Repeats(data, p, dist, len)
    ensures Copy(data[..p], dist, len) == data[..p + len]
    decreases len
  {
    if len > 0 {
      CopyFollowsText(data, p, dist, len - 1);
      var k := p + (len - 1);
      assert Echoes(data, dist, k);
      assert data[..p + len] == data[..k] + [data[k]];
      assert data[..k][k - dist] == data[k - dist];
    } else {
      assert data[..p + 0] == data[..p];
    }
  }

  /** Tokens that stand for the text up to p, and a true match there, stand for the text past it. */
  lemma MatchExpands(ts: seq<Token>, data: seq<byte>, p: nat, dist: nat, len: nat)
    requires Repeats(data, p, dist, len) && Expand(ts) == data[..p]
    ensures Expand(ts + [Match(dist, len)]) == data[..p + len]
  {
    ExpandNext(ts, Match(dist, len));
    CopyFollowsText(data, p, dist, len);
  }

  lemma LiteralExpands(ts: seq<Token>, data: seq<byte>, p: nat)
    requires p < |data| && Expand(ts) == data[..p]
    ensures Expand(ts + [Literal(data[p])]) == data[..p + 1]
  {
    ExpandNext(ts, Literal(data[p]));
    assert data[..p + 1] == data[..p] + [data[p]];
  }

  /** Every match reaches back over text that is there, and no further than reach. */
  ghost predicate Within(ts: seq<Token>, reach: nat) {
    ts == [] ||
    var t, s := ts[..|ts| - 1], ts[|ts| - 1];
    Within(t, reach) && (s.Match? ==> 0 < s.dist <= |Expand(t)| && s.dist <= reach)
  }

  lemma {:induction false} CopyAfter(before: seq<byte>, out: seq<byte>, dist: nat, len: nat)
    requires 0 < dist <= |out|
    ensures Copy(before + out, dist, len) == before + Copy(out, dist, len)
    decreases len
  {
    if len > 0 {
      CopyAfter(before, out, dist, len - 1);
      var t := Copy(out, dist, len - 1);
      assert (before + t)[|before| + |t| - dist] == t[|t| - dist];
    }
  }

  lemma ApplyAfter(before: seq<byte>, out: seq<byte>, s: Token)
    requires s.Match? ==> 0 < s.dist <= |out|
    ensures Apply(before + out, s) == before + Apply(out, s)
  {
    if s.Match? { CopyAfter(before, out, s.dist, s.len); }
  }

  /** Tokens that stay within themselves stand for the same text wherever they come. */
  lemma {:induction false} SectionsJoin(ts: seq<Token>, us: seq<Token>, reach: nat)
    requires Within(ts, reach) && Within(us, reach)
    ensures Within(ts + us, reach) && Expand(ts + us) == Expand(ts) + Expand(us)
    decreases |us|
  {
    hide Apply, Copy;
    if us == [] {
      assert ts + us == ts;
    } else {
      var u, s := us[..|us| - 1], us[|us| - 1];
      SectionsJoin(ts, u, reach);
      assert ts + us == (ts + u) + [s];
      ExpandNext(ts + u, s);
      ApplyAfter(Expand(ts), Expand(u), s);
      WithinNext(ts + u, s, reach);
    }
  }

  lemma WithinNext(ts: seq<Token>, t: Token, reach: nat)
    requires Within(ts, reach)
    requires t.Match? ==> 0 < t.dist <= |Expand(ts)| && t.dist <= reach
    ensures Within(ts + [t], reach)
  {
    assert (ts + [t])[..|ts|] == ts;
  }
}
