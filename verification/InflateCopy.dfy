/** The match copies of the inflaters.  A match may lie in the output, in the window of older
    output, or partly in both, and it may overlap the place it is copied to. */
module InflateCopy {
  import opened Rotations
  import opened Lz77

  // ---- bytes moved in memory ----

  /** b is a with n bytes at out replaced, the others as they were. */
  ghost predicate OnlyChanged(a: seq<byte>, b: seq<byte>, out: nat, n: nat) {
    && |a| == |b| && out + n <= |a|
    && forall i :: 0 <= i < |a| && !(out <= i < out + n) ==> b[i] == a[i]
  }

  ghost predicate MovedFrom(src: seq<byte>, from: nat, b: seq<byte>, out: nat, n: nat) {
    && from + n <= |src| && out + n <= |b|
    && forall i {:trigger b[i]} :: out <= i < out + n ==> b[i] == src[i - out + from]
  }

  /** One byte after the other, upwards. */
  method CopyRun(src: array<byte>, from: nat, dst: array<byte>, out: nat, n: nat)
    requires from + n <= src.Length && out + n <= dst.Length
    modifies dst
    ensures OnlyChanged(old(dst[..]), dst[..], out, n)
    ensures MovedFrom(if src == dst && from < out then dst[..] else old(src[..]), from, dst[..], out, n)
  {
    var k := 0;
    while k < n
      invariant k <= n
      invariant forall i :: 0 <= i < dst.Length && !(out <= i < out + k) ==> dst[i] == old(dst[i])
      invariant src != dst ==> forall i :: 0 <= i < src.Length ==> src[i] == old(src[i])
      invariant src == dst && from < out ==>
                  forall i {:trigger dst[i]} :: out <= i < out + k ==> dst[i] == dst[i - out + from]
      invariant !(src == dst && from < out) ==>
                  forall i {:trigger dst[i]} :: out <= i < out + k ==> dst[i] == old(src[i - out + from])
    {
      dst[out + k] := src[from + k];
      k := k + 1;
    }
  }

  // ---- a match over a circular window and the output after it ----

  /** Where the window keeps the byte written j bytes before the output began. */
  function Back(size: nat, wnext: nat, j: nat): int {
    if j <= wnext then wnext - j else size + wnext - j
  }

  /** Byte i of the output as it should be: op bytes out of the window, then bytes dist back. */
  ghost predicate ByteRight(win: seq<byte>, wnext: nat, cur: seq<byte>, out: nat, op: nat, dist: nat, i: int)
    requires out <= i < |cur|
  {
    if i - out < op then
      var j := Back(|win|, wnext, op - (i - out));
      0 <= j < |win| && cur[i] == win[j]
    else 0 <= i - dist && cur[i] == cur[i - dist]
  }

  /** The match is copied as far as o. */
  ghost predicate CopiedTo(win: seq<byte>, wnext: nat, a: seq<byte>, cur: seq<byte>, out: nat, o: nat, op: nat,
                           dist: nat) {
    && out <= o && OnlyChanged(a, cur, out, o - out)
    && forall i :: out <= i < o ==> ByteRight(win, wnext, cur, out, op, dist, i)
  }

  /** A further piece out of the window. */
  lemma WindowPiece(win: seq<byte>, wnext: nat, a: seq<byte>, cur: seq<byte>, next: seq<byte>,
                    src: seq<byte>, out: nat, o: nat, op: nat, dist: nat, from: nat, n: nat)
    requires CopiedTo(win, wnext, a, cur, out, o, op, dist)
    requires OnlyChanged(cur, next, o, n) && MovedFrom(src, from, next, o, n)
    requires |src| == |win| && src[from..from + n] == win[from..from + n]
    requires o - out + n <= op && dist > 0
    requires from == Back(|win|, wnext, op - (o - out)) && (op - (o - out) > wnext ==> from + n <= |win|)
    requires op - (o - out) <= |win| + wnext
    ensures CopiedTo(win, wnext, a, next, out, o + n, op, dist)
  {
    forall i | out <= i < o + n
      ensures ByteRight(win, wnext, next, out, op, dist, i)
    {
      if i < o {
        assert ByteRight(win, wnext, cur, out, op, dist, i);
      } else {
        var k := i - o;
        assert next[i] == src[from + k] == src[from..from + n][k] == win[from..from + n][k] == win[from + k];
        assert Back(|win|, wnext, op - (i - out)) == from + k;
      }
    }
  }

  /** A further piece out of the output. */
  lemma OutputPiece(win: seq<byte>, wnext: nat, a: seq<byte>, cur: seq<byte>, next: seq<byte>,
                    out: nat, o: nat, op: nat, dist: nat, n: nat)
    requires CopiedTo(win, wnext, a, cur, out, o, op, dist)
    requires op <= o - out && 0 < dist <= o
    requires OnlyChanged(cur, next, o, n) && MovedFrom(next, o - dist, next, o, n)
    ensures CopiedTo(win, wnext, a, next, out, o + n, op, dist)
  {
    forall i | out <= i < o + n
      ensures ByteRight(win, wnext, next, out, op, dist, i)
    {
      if i < o {
        assert ByteRight(win, wnext, cur, out, op, dist, i);
      } else {
        assert next[i] == next[i - o + (o - dist)];
      }
    }
  }

  /** The last m bytes before the output began are in the window. */
  ghost predicate Older(win: seq<byte>, wnext: nat, m: nat, base: seq<byte>) {
    && m <= |base| && m <= |win| && wnext <= |win|
    && forall j :: 1 <= j <= m ==> win[Back(|win|, wnext, j)] == base[|base| - j]
  }

  function Beyond(dist: nat, have: nat): nat {
    if dist > have then dist - have else 0
  }

  /** Bytes copied that way are the match. */
  lemma CopiedIsMatch(win: seq<byte>, wnext: nat, m: nat, base: seq<byte>, a: seq<byte>, cur: seq<byte>,
                      beg: nat, out: nat, dist: nat, len: nat)
    requires Older(win, wnext, m, base) && beg <= out <= |a|
    requires var op := Beyond(dist, out - beg); op <= m && CopiedTo(win, wnext, a, cur, out, out + len, op, dist)
    requires 0 < dist
    ensures base + cur[beg..out + len] == Copy(base + a[beg..out], dist, len)
  {
    var text, data := base + a[beg..out], base + cur[beg..out + len];
    var p := |text|;
    var op := Beyond(dist, out - beg);
    assert data[..p] == text by {
      assert cur[beg..out + len][..out - beg] == a[beg..out];
    }
    forall k {:trigger Echoes(data, dist, k)} | p <= k < p + len
      ensures Echoes(data, dist, k)
    {
      var i := k - |base| + beg;
      assert ByteRight(win, wnext, cur, out, op, dist, i);
      assert data[k] == cur[i];
      if i - out < op {
        assert data[k - dist] == base[|base| - (op - (i - out))];
      } else {
        assert data[k - dist] == cur[i - dist];
      }
    }
    CopyFollowsText(data, p, dist, len);
    assert data[..p + len] == data;
  }

  /** The window is apart from the output, or it is the output and the match lies ahead of it. */
  ghost predicate Readable(window: array<byte>, wnext: nat, output: array<byte>, beg: nat, out: nat, dist: nat) {
    window != output || (beg == 0 && wnext == 0 && out <= window.Length && dist <= window.Length)
  }

  /** One piece out of the window, with all that was known about the pieces before it. */
  method CopyFromWindow(window: array<byte>, wnext: nat, output: array<byte>, from: nat, o: nat, n: nat,
                        ghost a: seq<byte>, ghost win: seq<byte>, ghost out: nat, ghost op: nat, ghost dist: nat,
                        ghost fine: bool)
    requires from + n <= window.Length && o + n <= output.Length && dist > 0 && |win| == window.Length
    requires |a| == output.Length && out <= o
    requires OnlyChanged(a, output[..], out, o - out)
    requires fine ==> window[from..from + n] == win[from..from + n] && (window == output ==> from >= o)
    requires fine ==> CopiedTo(win, wnext, a, output[..], out, o, op, dist)
    requires o - out + n <= op && op - (o - out) <= window.Length + wnext
    requires from == Back(window.Length, wnext, op - (o - out))
             && (op - (o - out) > wnext ==> from + n <= window.Length)
    modifies output
    ensures OnlyChanged(a, output[..], out, o + n - out)
    ensures fine ==> CopiedTo(win, wnext, a, output[..], out, o + n, op, dist)
    ensures window != output ==> window[..] == old(window[..])
  {
    ghost var cur, src := output[..], window[..];
    CopyRun(window, from, output, o, n);
    if fine {
      assert src[from..from + n] == win[from..from + n];
      WindowPiece(win, wnext, a, cur, output[..], src, out, o, op, dist, from, n);
    }
  }

  /** One piece out of the output itself. */
  method CopyFromOutput(output: array<byte>, o: nat, n: nat, ghost wnext: nat,
                        ghost a: seq<byte>, ghost win: seq<byte>, ghost out: nat, ghost op: nat, dist: nat,
                        ghost fine: bool)
    requires o + n <= output.Length && 0 < dist <= o && |a| == output.Length && out <= o && op <= o - out
    requires OnlyChanged(a, output[..], out, o - out)
    requires fine ==> CopiedTo(win, wnext, a, output[..], out, o, op, dist)
    modifies output
    ensures OnlyChanged(a, output[..], out, o + n - out)
    ensures fine ==> CopiedTo(win, wnext, a, output[..], out, o + n, op, dist)
  {
    ghost var cur := output[..];
    CopyRun(output, o - dist, output, o, n);
    if fine {
      OutputPiece(win, wnext, a, cur, output[..], out, o, op, dist, n);
    }
  }

  /** The part of a match that lies in the window: at the end of a window not yet wrapped, across
      its end, or in one piece before its write index. */
  method FastCopyOld(window: array<byte>, wnext: nat, output: array<byte>, out: nat, len: nat, all: nat,
                     ghost dist: nat, ghost fine: bool)
    returns (o: nat)
    requires 0 < dist && 0 < len && out + len <= output.Length && wnext <= window.Length && 0 < all <= window.Length
    requires fine && window == output ==> wnext == 0 && out + all <= window.Length
    modifies output
    ensures out <= o <= out + len && (o < out + len ==> o == out + all)
    ensures OnlyChanged(old(output[..]), output[..], out, o - out)
    ensures fine ==> CopiedTo(old(window[..]), wnext, old(output[..]), output[..], out, o, all, dist)
    ensures window != output ==> window[..] == old(window[..])
  {
    hide CopiedTo, OnlyChanged, MovedFrom, ByteRight;
    ghost var a, win := output[..], window[..];
    var size, op, n := window.Length, all, len;
    o := out;
    CopiedNothing(win, wnext, a, out, op, dist);
    if wnext == 0 {
      var k := if op < n then op else n;
      CopyFromWindow(window, wnext, output, size - op, o, k, a, win, out, all, dist, fine);
      o := o + k;
    } else if wnext < op {
      op := op - wnext;
      var k := if op < n then op else n;
      CopyFromWindow(window, wnext, output, size - op, o, k, a, win, out, all, dist, fine);
      n, o := n - k, o + k;
      if n > 0 {
        k := if wnext < n then wnext else n;
        CopyFromWindow(window, wnext, output, 0, o, k, a, win, out, all, dist, fine);
        o := o + k;
      }
    } else {
      var k := if op < n then op else n;
      CopyFromWindow(window, wnext, output, wnext - op, o, k, a, win, out, all, dist, fine);
      o := o + k;
    }
  }

  /** The four layouts of the fast inflater: what lies in the window, in one of three ways, and what
      lies in the output. */
  method FastCopy(window: array<byte>, wnext: nat, output: array<byte>, beg: nat, out: nat, dist: nat, len: nat)
    requires 0 < dist && 0 < len && beg <= out && out + len <= output.Length && wnext <= window.Length
    requires Beyond(dist, out - beg) <= window.Length
    modifies output
    ensures OnlyChanged(old(output[..]), output[..], out, len)
    ensures Readable(window, wnext, output, beg, out, dist) ==>
              CopiedTo(old(window[..]), wnext, old(output[..]), output[..], out, out + len, Beyond(dist, out - beg),
                       dist)
    ensures window != output ==> window[..] == old(window[..])
  {
    hide CopiedTo, OnlyChanged, MovedFrom, ByteRight;
    ghost var a, win := output[..], window[..];
    ghost var fine := Readable(window, wnext, output, beg, out, dist);
    var op: nat := Beyond(dist, out - beg);
    var o := out;
    CopiedNothing(win, wnext, a, out, op, dist);
    if op > 0 {
      o := FastCopyOld(window, wnext, output, out, len, op, dist, fine);
    }
    if o < out + len {
      CopyFromOutput(output, o, out + len - o, wnext, a, win, out, op, dist, fine);
    }
  }

  lemma CopiedNothing(win: seq<byte>, wnext: nat, a: seq<byte>, out: nat, op: nat, dist: nat)
    requires out <= |a|
    ensures OnlyChanged(a, a, out, 0) && CopiedTo(win, wnext, a, a, out, out, op, dist)
  {
  }
}
