/** The decoder's move-to-front list: 256 entries kept in sixteen sections of sixteen inside a
    larger array, so that moving an entry forward shifts one section and only one entry of
    every section before it. */
module SectionedMtf {
  import opened Rotations
  import opened MoveToFront

  const MTFA_SIZE := 4096
  const MTFL_SIZE := 16

  /** Entries q..q+len-1 of the list lie in the array from p on. */
  ghost predicate Holds(a: seq<byte>, p: nat, l: seq<byte>, q: nat, len: nat) {
    p + len <= |a| && q + len <= |l| && a[p..p + len] == l[q..q + len]
  }

  lemma HoldsAt(a: seq<byte>, p: nat, l: seq<byte>, q: nat, len: nat, k: nat)
    requires Holds(a, p, l, q, len) && k < len
    ensures a[p + k] == l[q + k]
  {
    assert a[p..p + len][k] == l[q..q + len][k];
  }

  lemma HoldsPart(a: seq<byte>, p: nat, l: seq<byte>, q: nat, len: nat, d: nat, n: nat)
    requires Holds(a, p, l, q, len) && d + n <= len
    ensures Holds(a, p + d, l, q + d, n)
  {
    var u, v := a[p + d..p + d + n], l[q + d..q + d + n];
    forall k | 0 <= k < n ensures u[k] == v[k] { HoldsAt(a, p, l, q, len, d + k); }
  }

  /** The section at k is followed by that at k + 1, len places or more further on. */
  ghost predicate Follows(base: seq<nat>, k: nat, len: nat)
    requires k + 1 < |base|
  {
    base[k] + len <= base[k + 1]
  }

  /** Sections lie in order without touching, short of the array's end. */
  ghost predicate InOrder(base: seq<nat>) {
    && |base| == 16 && base[15] + 16 <= MTFA_SIZE
    && forall k :: 0 <= k < 15 ==> Follows(base, k, 16)
  }

  ghost predicate Laid(a: seq<byte>, base: seq<nat>, l: seq<byte>) {
    && |a| == MTFA_SIZE && |l| == 256 && InOrder(base)
    && forall k :: 0 <= k < 16 ==> Holds(a, base[k], l, 16 * k, 16)
  }

  lemma {:induction false} BaseBound(base: seq<nat>, k: nat)
    requires InOrder(base) && k < 16
    ensures base[k] <= 3840 + 16 * k
    decreases 15 - k
  {
    if k < 15 {
      assert Follows(base, k, 16);
      BaseBound(base, k + 1);
    }
  }

  lemma {:induction false} BasesApart(base: seq<nat>, k: nat, m: nat)
    requires InOrder(base) && k < m < 16
    ensures base[k] + 16 * (m - k) <= base[m]
    decreases m - k
  {
    assert Follows(base, m - 1, 16);
    if k + 1 < m { BasesApart(base, k, m - 1); }
  }

  // ---- an entry of the first section ----

  /** The first section after its entry nn has moved to the front. */
  lemma FirstSectionMoved(a: seq<byte>, b: seq<byte>, base: seq<nat>, l: seq<byte>, nn: nat)
    requires Laid(a, base, l) && nn < 16 && |b| == |a|
    requires b[base[0]..base[0] + 16] == ToFront(a[base[0]..base[0] + 16], nn)
    requires forall x :: 0 <= x < |a| && !(base[0] <= x < base[0] + 16) ==> b[x] == a[x]
    ensures Laid(b, base, ToFront(l, nn))
  {
    var m := ToFront(l, nn);
    forall k | 0 <= k < 16 ensures Holds(b, base[k], m, 16 * k, 16) {
      if k == 0 {
        assert Holds(a, base[0], l, 16 * 0, 16);
        assert l[0..16] == a[base[0]..base[0] + 16];
        assert m[0..16] == ToFront(l[0..16], nn);
      } else {
        BasesApart(base, 0, k);
        assert Holds(a, base[k], l, 16 * k, 16);
        assert m[16 * k..16 * k + 16] == l[16 * k..16 * k + 16];
        assert b[base[k]..base[k] + 16] == a[base[k]..base[k] + 16];
      }
    }
  }

  // ---- an entry of a later section ----

  /** Section m has room for one entry in front, the sections after it are already those of
      the new list, the sections before it are still those of the old one. */
  ghost predicate Pulling(a: seq<byte>, base: seq<nat>, l: seq<byte>, nn: nat, m: nat) {
    && |a| == MTFA_SIZE && |l| == 256 && |base| == 16 && 16 * m <= nn < 256
    && (if m == 15 then base[15] + 15 <= MTFA_SIZE else base[15] + 16 <= MTFA_SIZE)
    && (forall k :: 0 <= k < 15 && k != m ==> Follows(base, k, 16)) && (m < 15 ==> Follows(base, m, 15))
    && base[m] > 0
    && (forall k :: m < k < 16 ==> Holds(a, base[k], ToFront(l, nn), 16 * k, 16))
    && Holds(a, base[m], ToFront(l, nn), 16 * m + 1, 15)
    && forall k :: 0 <= k < m ==> Holds(a, base[k], l, 16 * k, 16)
  }

  lemma {:induction false} PullingApart(a: seq<byte>, base: seq<nat>, l: seq<byte>, nn: nat, m: nat, k: nat)
    requires Pulling(a, base, l, nn, m) && k < 16
    ensures k < m ==> base[k] + 15 <= base[m] - 1
    ensures k + 1 < m ==> base[k] + 16 <= base[m] - 1
    ensures k > m ==> base[m] + 15 <= base[k]
    decreases if k < m then m - k else k
  {
    hide Holds, ToFront;
    if k < m { assert Follows(base, k, 16); }
    if k + 1 < m { PullingApart(a, base, l, nn, m, k + 1); }
    if k > m { assert Follows(base, k - 1, if k == m + 1 then 15 else 16); }
    if k > m + 1 { PullingApart(a, base, l, nn, m, k - 1); }
  }

  /** The last entry of section m - 1 becomes the first of section m. */
  lemma PullStep(a: seq<byte>, base: seq<nat>, l: seq<byte>, nn: nat, m: nat)
    requires Pulling(a, base, l, nn, m) && m > 0
    ensures base[m - 1] + 15 < |a|
    ensures base[m - 1] > 0 ==>
              Pulling(a[base[m] - 1 := a[base[m - 1] + 15]], base[m := base[m] - 1], l, nn, m - 1)
  {
    hide Holds, ToFront, Follows;
    PulledByte(a, base, l, nn, m);
    if base[m - 1] > 0 {
      var v, base1 := a[base[m - 1] + 15], base[m := base[m] - 1];
      var b := a[base1[m] := v];
      forall k | m <= k < 16 ensures Holds(b, base1[k], ToFront(l, nn), 16 * k, 16) {
        PulledUpper(a, base, l, nn, m, v, k);
      }
      forall k | 0 <= k < m - 1 ensures Holds(b, base1[k], l, 16 * k, 16) { PulledLower(a, base, l, nn, m, v, k); }
      PulledSection(a, base, l, nn, m, v);
      PulledApart(a, base, l, nn, m);
    }
  }

  lemma PulledByte(a: seq<byte>, base: seq<nat>, l: seq<byte>, nn: nat, m: nat)
    requires Pulling(a, base, l, nn, m) && m > 0
    ensures base[m - 1] + 15 < |a| && 0 < base[m] <= |a| && |ToFront(l, nn)| == 256
    ensures a[base[m - 1] + 15] == ToFront(l, nn)[16 * m]
  {
    hide ToFront, Follows;
    assert Holds(a, base[m - 1], l, 16 * (m - 1), 16) && Holds(a, base[m], ToFront(l, nn), 16 * m + 1, 15);
    HoldsAt(a, base[m - 1], l, 16 * (m - 1), 16, 15);
    ToFrontEntries(l, nn, 16 * m);
  }

  lemma PulledUpper(a: seq<byte>, base: seq<nat>, l: seq<byte>, nn: nat, m: nat, v: byte, k: nat)
    requires Pulling(a, base, l, nn, m) && m <= k < 16 && v == ToFront(l, nn)[16 * m]
    ensures base[m] <= |a| && Holds(a[base[m] - 1 := v], base[m := base[m] - 1][k], ToFront(l, nn), 16 * k, 16)
  {
    hide Holds, ToFront, Follows;
    SectionFilled(a, v, base[m], ToFront(l, nn), 16 * m);
    if k > m {
      PullingApart(a, base, l, nn, m, k);
      SectionKept(a, base[m] - 1, v, base[k], ToFront(l, nn), 16 * k, 16);
    }
  }

  lemma PulledLower(a: seq<byte>, base: seq<nat>, l: seq<byte>, nn: nat, m: nat, v: byte, k: nat)
    requires Pulling(a, base, l, nn, m) && k + 1 < m && base[m] <= |a|
    ensures Holds(a[base[m] - 1 := v], base[k], l, 16 * k, 16)
  {
    hide Holds, ToFront, Follows;
    PullingApart(a, base, l, nn, m, k);
    SectionKept(a, base[m] - 1, v, base[k], l, 16 * k, 16);
  }

  lemma PulledSection(a: seq<byte>, base: seq<nat>, l: seq<byte>, nn: nat, m: nat, v: byte)
    requires Pulling(a, base, l, nn, m) && m > 0 && base[m] <= |a|
    ensures Holds(a[base[m] - 1 := v], base[m - 1], ToFront(l, nn), 16 * (m - 1) + 1, 15)
  {
    hide Holds, ToFront, Follows;
    PullingApart(a, base, l, nn, m, m - 1);
    SectionShifted(a, base[m - 1], l, nn, 16 * (m - 1));
    SectionKept(a, base[m] - 1, v, base[m - 1], ToFront(l, nn), 16 * (m - 1) + 1, 15);
  }

  lemma PulledApart(a: seq<byte>, base: seq<nat>, l: seq<byte>, nn: nat, m: nat)
    requires Pulling(a, base, l, nn, m) && m > 0
    ensures var base1 := base[m := base[m] - 1];
            (forall k :: 0 <= k < 15 && k != m - 1 ==> Follows(base1, k, 16)) && Follows(base1, m - 1, 15)
  {
    hide Holds, ToFront;
    var base1 := base[m := base[m] - 1];
    assert Follows(base, m - 1, 16);
    forall k | 0 <= k < 15 && k != m - 1 ensures Follows(base1, k, 16) {
      assert Follows(base, k, if k == m then 15 else 16);
    }
  }

  /** A store elsewhere. */
  lemma SectionKept(a: seq<byte>, x: nat, v: byte, p: nat, l: seq<byte>, q: nat, len: nat)
    requires Holds(a, p, l, q, len) && x < |a| && !(p <= x < p + len)
    ensures Holds(a[x := v], p, l, q, len)
  {
    assert a[x := v][p..p + len] == a[p..p + len];
  }

  lemma SectionFilled(a: seq<byte>, v: byte, p: nat, t: seq<byte>, q: nat)
    requires Holds(a, p, t, q + 1, 15) && p > 0 && q < |t| && v == t[q]
    ensures p <= |a| && Holds(a[p - 1 := v], p - 1, t, q, 16)
  {
    var b := a[p - 1 := v];
    assert b[p..p + 15] == a[p..p + 15];
    assert b[p - 1..p + 15] == [b[p - 1]] + b[p..p + 15];
    assert t[q..q + 16] == [t[q]] + t[q + 1..q + 16];
  }

  lemma SectionShifted(a: seq<byte>, p: nat, l: seq<byte>, nn: nat, q: nat)
    requires Holds(a, p, l, q, 16) && q + 16 <= nn < |l|
    ensures Holds(a, p, ToFront(l, nn), q + 1, 15)
  {
    var t := ToFront(l, nn);
    var u, v := a[p..p + 15], t[q + 1..q + 16];
    forall k | 0 <= k < 15 ensures u[k] == v[k] {
      ToFrontEntries(l, nn, q + 1 + k);
      assert a[p..p + 16][k] == l[q..q + 16][k];
    }
  }

  /** Once section 0 has received the moved entry, the new list is laid out. */
  lemma PullEnd(a: seq<byte>, base: seq<nat>, l: seq<byte>, nn: nat)
    requires Pulling(a, base, l, nn, 0)
    ensures base[0] <= |a|
    ensures Laid(a[base[0] - 1 := l[nn]], base[0 := base[0] - 1], ToFront(l, nn))
  {
    var m := 0;
    hide Holds, ToFront;
    ToFrontEntries(l, nn, 0);
    forall k | 0 <= k < 16
      ensures base[0] <= |a|
              && Holds(a[base[0] - 1 := l[nn]], base[0 := base[0] - 1][k], ToFront(l, nn), 16 * k, 16)
    {
      PulledUpper(a, base, l, nn, m, l[nn], k);
    }
    var base1 := base[0 := base[0] - 1];
    forall k | 0 <= k < 15 ensures Follows(base1, k, 16) { assert Follows(base, k, if k == m then 15 else 16); }
  }

  /** Entries p..p+off-1 of a have moved one place up. */
  ghost predicate ShiftedUp(a: seq<byte>, b: seq<byte>, p: nat, off: nat) {
    && |b| == |a|
    && forall x {:trigger b[x]} :: 0 <= x < |a| ==> b[x] == if p < x <= p + off then a[x - 1] else a[x]
  }

  /** The section of the moved entry, with the entries before it shifted up by one. */
  lemma HoleMade(a: seq<byte>, b: seq<byte>, p: nat, l: seq<byte>, q: nat, off: nat)
    requires Holds(a, p, l, q, 16) && off < 16 && |b| == |a|
    requires ShiftedUp(a, b, p, off)
    ensures Holds(b, p + 1, ToFront(l, q + off), q + 1, 15)
  {
    var t := ToFront(l, q + off);
    var u, v := b[p + 1..p + 16], t[q + 1..q + 16];
    forall k | 0 <= k < 15 ensures u[k] == v[k] {
      ToFrontEntries(l, q + off, q + 1 + k);
      var x := if 1 + k <= off then k else k + 1;
      assert a[p..p + 16][x] == l[q..q + 16][x];
    }
  }

  /** After the entries before the moved one have shifted up within their section. */
  lemma PullStart(a: seq<byte>, b: seq<byte>, base: seq<nat>, l: seq<byte>, lno: nat, off: nat)
    requires Laid(a, base, l) && 0 < lno < 16 && off < 16 && |b| == |a|
    requires ShiftedUp(a, b, base[lno], off)
    ensures Pulling(b, base[lno := base[lno] + 1], l, 16 * lno + off, lno)
  {
    var nn, p := 16 * lno + off, base[lno];
    var t, base1 := ToFront(l, nn), base[lno := p + 1];
    forall k | 0 <= k < 16 && k != lno
      ensures Holds(b, base1[k], if k < lno then l else t, 16 * k, 16)
    {
      if k < lno { BasesApart(base, k, lno); } else { BasesApart(base, lno, k); }
      assert Holds(a, base[k], l, 16 * k, 16);
      assert b[base[k]..base[k] + 16] == a[base[k]..base[k] + 16];
      if k > lno { assert t[16 * k..16 * k + 16] == l[16 * k..16 * k + 16]; }
    }
    assert Holds(a, p, l, 16 * lno, 16);
    HoleMade(a, b, p, l, 16 * lno, off);
    forall k | 0 <= k < 15 && k != lno ensures Follows(base1, k, 16) { assert Follows(base, k, 16); }
    if lno < 15 { assert Follows(base, lno, 16); }
  }

  // ---- the structure ----

  /** Every section copied to the far end of the array, from the last entry down; an entry is
      never overwritten before it has been copied. */
  ghost predicate Rebasing(a: seq<byte>, base: seq<nat>, l: seq<byte>, todo: nat) {
    && |a| == MTFA_SIZE && |l| == 256 && |base| == 16 && todo <= 16
    && (forall k :: 0 <= k < todo ==> base[k] <= 3840 + 16 * k && Holds(a, base[k], l, 16 * k, 16))
    && (forall k :: 0 <= k < todo - 1 ==> Follows(base, k, 16))
    && (forall k :: todo <= k < 16 ==> base[k] == 3840 + 16 * k)
    && Holds(a, 3840 + 16 * todo, l, 16 * todo, 256 - 16 * todo)
  }

  lemma RebaseStart(a: seq<byte>, base: seq<nat>, l: seq<byte>)
    requires Laid(a, base, l)
    ensures Rebasing(a, base, l, 16)
  {
    forall k | 0 <= k < 16 ensures base[k] <= 3840 + 16 * k { BaseBound(base, k); }
    assert a[4096..4096] == l[256..256];
  }

  lemma RebaseEnd(a: seq<byte>, base: seq<nat>, l: seq<byte>)
    requires Rebasing(a, base, l, 0)
    ensures Laid(a, base, l) && base[0] == 3840
  {
    var todo := 0;
    assert Holds(a, 3840 + 16 * todo, l, 16 * todo, 256 - 16 * todo);
    forall k | 0 <= k < 16 ensures Holds(a, base[k], l, 16 * k, 16) {
      HoldsPart(a, 3840 + 16 * todo, l, 16 * todo, 256 - 16 * todo, 16 * k, 16);
    }
  }

  lemma {:induction false} RebasingApart(a: seq<byte>, base: seq<nat>, l: seq<byte>, todo: nat, k: nat)
    requires Rebasing(a, base, l, todo) && k + 1 < todo
    ensures base[k] + 16 <= base[todo - 1]
    decreases todo - k
  {
    hide Holds;
    assert Follows(base, k, 16);
    if k + 2 < todo { RebasingApart(a, base, l, todo, k + 1); }
  }

  /** b is a with section s copied to its final place. */
  ghost predicate Copied(a: seq<byte>, b: seq<byte>, from: nat, to: nat, jj: nat) {
    && |b| == |a| && from <= to && jj <= 16 && to + 16 <= |a|
    && forall x {:trigger b[x]} :: 0 <= x < |a| ==> b[x] == if to + jj <= x < to + 16 then a[x - to + from] else a[x]
  }

  lemma RebaseStep(a: seq<byte>, b: seq<byte>, base: seq<nat>, l: seq<byte>, todo: nat)
    requires Rebasing(a, base, l, todo) && todo > 0
    requires Copied(a, b, base[todo - 1], 3840 + 16 * (todo - 1), 0)
    ensures Rebasing(b, base[todo - 1 := 3840 + 16 * (todo - 1)], l, todo - 1)
  {
    var ii := todo - 1;
    var to := 3840 + 16 * ii;
    var base1 := base[ii := to];
    forall k | 0 <= k < ii ensures Holds(b, base1[k], l, 16 * k, 16) {
      RebasingApart(a, base, l, todo, k);
      assert Holds(a, base[k], l, 16 * k, 16);
      assert b[base[k]..base[k] + 16] == a[base[k]..base[k] + 16];
    }
    assert Holds(a, base[ii], l, 16 * ii, 16);
    assert b[to..to + 16] == a[base[ii]..base[ii] + 16];
    assert b[to..4096] == b[to..to + 16] + b[to + 16..4096];
    assert b[to + 16..4096] == a[to + 16..4096];
    assert l[16 * ii..256] == l[16 * ii..16 * todo] + l[16 * todo..256];
    forall k | 0 <= k < ii - 1 ensures Follows(base1, k, 16) { assert Follows(base, k, 16); }
  }

  class SectionedList {
    const mtfa: array<byte>
    const mtfbase: array<nat>
    ghost var list: seq<byte>

    ghost predicate Valid()
      reads this, mtfa, mtfbase
    {
      mtfbase.Length == 16 && mtfbase[0] > 0 && Laid(mtfa[..], mtfbase[..], list)
    }

    /** The byte values in order, at the far end of the array. */
    constructor ()
      ensures Valid() && list == Initial(256) && fresh(mtfa) && fresh(mtfbase)
    {
      mtfa := new byte[MTFA_SIZE];
      mtfbase := new nat[16];
      list := Initial(256);
      new;
      hide Initial;
      ghost var l := Initial(256);
      var kk := MTFA_SIZE - 1;
      var ii := 15;
      while ii >= 0
        invariant -1 <= ii <= 15 && kk == 3840 + 16 * ii + 15
        invariant forall x {:trigger mtfa[x]} :: kk < x < MTFA_SIZE ==> mtfa[x] == x - 3840
        invariant forall k :: ii < k < 16 ==> mtfbase[k] == 3840 + 16 * k
        modifies mtfa, mtfbase
      {
        var jj := 15;
        while jj >= 0
          invariant -1 <= jj <= 15 && kk == 3840 + 16 * ii + jj
          invariant forall x {:trigger mtfa[x]} :: kk < x < MTFA_SIZE ==> mtfa[x] == x - 3840
          modifies mtfa
        {
          mtfa[kk] := ii * MTFL_SIZE + jj;
          kk := kk - 1;
          jj := jj - 1;
        }
        mtfbase[ii] := kk + 1;
        ii := ii - 1;
      }
      InitialLaid(mtfa[..], mtfbase[..]);
    }

    /** Takes entry nn out and puts it first. */
    method Take(nn: nat) returns (uc: byte)
      requires Valid() && nn < 256
      modifies this, mtfa, mtfbase
      ensures Valid() && uc == old(list)[nn] && list == ToFront(old(list), nn)
    {
      hide Laid, ToFront;
      if nn < MTFL_SIZE {
        uc := TakeNear(nn);
      } else {
        uc := TakeFar(nn / MTFL_SIZE, nn % MTFL_SIZE);
      }
    }

    /** The entry in front, which stays there. */
    method Front() returns (uc: byte)
      requires Valid()
      ensures uc == list[0]
    {
      assert Holds(mtfa[..], mtfbase[..][0], list, 16 * 0, 16);
      uc := mtfa[mtfbase[0]];
      HoldsAt(mtfa[..], mtfbase[0], list, 0, 16, 0);
    }

    /** Moves entries p..p+off-1 one place up, in fours and then singly where fours says so. */
    method ShiftUp(p: nat, off: nat, fours: bool)
      requires p + off < mtfa.Length
      modifies mtfa
      ensures ShiftedUp(old(mtfa[..]), mtfa[..], p, off)
    {
      ghost var a := mtfa[..];
      var nn := off;
      if fours {
        while nn > 3
          invariant 0 <= nn <= off
          invariant forall x {:trigger mtfa[x]} :: 0 <= x < mtfa.Length ==>
                      mtfa[x] == if p + nn < x <= p + off then a[x - 1] else a[x]
        {
          var z := p + nn;
          mtfa[z] := mtfa[z - 1];
          mtfa[z - 1] := mtfa[z - 2];
          mtfa[z - 2] := mtfa[z - 3];
          mtfa[z - 3] := mtfa[z - 4];
          nn := nn - 4;
        }
      }
      while nn > 0
        invariant 0 <= nn <= off
        invariant forall x {:trigger mtfa[x]} :: 0 <= x < mtfa.Length ==>
                    mtfa[x] == if p + nn < x <= p + off then a[x - 1] else a[x]
      {
        mtfa[p + nn] := mtfa[p + nn - 1];
        nn := nn - 1;
      }
    }

    /** An entry of the first section: one shift, no bookkeeping. */
    method TakeNear(nn: nat) returns (uc: byte)
      requires Valid() && nn < 16
      modifies this, mtfa
      ensures Valid() && uc == old(list)[nn] && list == ToFront(old(list), nn)
    {
      hide Laid;
      ghost var a, base := mtfa[..], mtfbase[..];
      SectionAt(a, base, list, 0, nn);
      var pp := mtfbase[0];
      uc := mtfa[pp + nn];
      ShiftUp(pp, nn, true);
      mtfa[pp] := uc;
      NearMoved(a, mtfa[..], pp, nn);
      FirstSectionMoved(a, mtfa[..], base, list, nn);
      list := ToFront(list, nn);
    }

    /** An entry of a later section: one shift inside it, one entry pulled over per section
        before it, and everything moved back when the front has reached the array's start. */
    method TakeFar(lno: nat, off: nat) returns (uc: byte)
      requires Valid() && 0 < lno < 16 && off < 16
      modifies this, mtfa, mtfbase
      ensures Valid() && uc == old(list)[16 * lno + off] && list == ToFront(old(list), 16 * lno + off)
    {
      hide Laid, Pulling, ShiftedUp;
      ghost var a, base, l, nn := mtfa[..], mtfbase[..], list, 16 * lno + off;
      SectionAt(a, base, l, lno, off);
      uc := mtfa[mtfbase[lno] + off];
      ShiftUp(mtfbase[lno], off, false);
      PullStart(a, mtfa[..], base, l, lno, off);
      mtfbase[lno] := mtfbase[lno] + 1;
      PullAll(lno, nn, l);
      PullEnd(mtfa[..], mtfbase[..], l, nn);
      mtfbase[0] := mtfbase[0] - 1;
      mtfa[mtfbase[0]] := uc;
      list := ToFront(l, nn);
      if mtfbase[0] == 0 {
        Rebase();
      }
    }

    /** One entry of every section before lno goes to the front of the section after it. */
    method PullAll(lno: nat, ghost nn: nat, ghost l: seq<byte>)
      requires mtfbase.Length == 16 && 0 < lno < 16 && mtfbase[0] > 0
      requires Pulling(mtfa[..], mtfbase[..], l, nn, lno)
      modifies mtfa, mtfbase
      ensures Pulling(mtfa[..], mtfbase[..], l, nn, 0) && mtfbase[0] > 0
    {
      hide Pulling, Holds, ToFront;
      var m := lno;
      while m > 0
        invariant m <= lno && mtfbase[0] > 0 && Pulling(mtfa[..], mtfbase[..], l, nn, m)
      {
        ghost var a, base := mtfa[..], mtfbase[..];
        PositiveBases(a, base, l, nn, m);
        PullStep(a, base, l, nn, m);
        mtfbase[m] := mtfbase[m] - 1;
        mtfa[mtfbase[m]] := mtfa[mtfbase[m - 1] + MTFL_SIZE - 1];
        m := m - 1;
      }
    }

    method Rebase()
      requires mtfbase.Length == 16 && Laid(mtfa[..], mtfbase[..], list)
      modifies mtfa, mtfbase
      ensures Valid()
    {
      hide Laid, Rebasing, Copied;
      RebaseStart(mtfa[..], mtfbase[..], list);
      var kk := MTFA_SIZE - 1;
      var ii := 15;
      while ii >= 0
        invariant -1 <= ii <= 15 && kk == 3840 + 16 * ii + 15
        invariant Rebasing(mtfa[..], mtfbase[..], list, ii + 1)
      {
        ghost var a, base := mtfa[..], mtfbase[..];
        RebasingBound(a, base, list, ii);
        CopySection(mtfbase[ii], kk);
        RebaseStep(a, mtfa[..], base, list, ii + 1);
        kk := kk - 16;
        mtfbase[ii] := kk + 1;
        ii := ii - 1;
      }
      RebaseEnd(mtfa[..], mtfbase[..], list);
    }

    /** Copies the sixteen entries at from to the places ending at last, highest first. */
    method CopySection(from: nat, last: nat)
      requires from + 15 <= last < mtfa.Length
      modifies mtfa
      ensures Copied(old(mtfa[..]), mtfa[..], from, last - 15, 0)
    {
      ghost var a := mtfa[..];
      var kk := last;
      var jj := MTFL_SIZE - 1;
      while jj >= 0
        invariant -1 <= jj <= 15 && kk == last - 15 + jj
        invariant Copied(a, mtfa[..], from, last - 15, jj + 1)
      {
        mtfa[kk] := mtfa[from + jj];
        kk := kk - 1;
        jj := jj - 1;
      }
    }
  }

  lemma InitialLaid(a: seq<byte>, base: seq<nat>)
    requires |a| == MTFA_SIZE && |base| == 16
    requires forall x {:trigger a[x]} :: 3840 <= x < MTFA_SIZE ==> a[x] == x - 3840
    requires forall k :: 0 <= k < 16 ==> base[k] == 3840 + 16 * k
    ensures Laid(a, base, Initial(256))
  {
    var l := Initial(256);
    forall k | 0 <= k < 16 ensures Holds(a, base[k], l, 16 * k, 16) {
      assert a[base[k]..base[k] + 16] == l[16 * k..16 * k + 16];
    }
  }

  lemma SectionAt(a: seq<byte>, base: seq<nat>, l: seq<byte>, k: nat, off: nat)
    requires Laid(a, base, l) && k < 16 && off < 16
    ensures |a| == MTFA_SIZE && |l| == 256 && |base| == 16
    ensures base[k] + 16 <= |a| && a[base[k] + off] == l[16 * k + off]
  {
    assert Holds(a, base[k], l, 16 * k, 16);
    HoldsAt(a, base[k], l, 16 * k, 16, off);
  }

  lemma NearMoved(a: seq<byte>, b: seq<byte>, p: nat, nn: nat)
    requires nn < 16 && p + 16 <= |a| == |b|
    requires forall x {:trigger b[x]} :: 0 <= x < |a| ==>
               b[x] == if x == p then a[p + nn] else if p < x <= p + nn then a[x - 1] else a[x]
    ensures b[p..p + 16] == ToFront(a[p..p + 16], nn)
    ensures forall x :: 0 <= x < |a| && !(p <= x < p + 16) ==> b[x] == a[x]
  {
    var u, v := b[p..p + 16], ToFront(a[p..p + 16], nn);
    forall k | 0 <= k < 16 ensures u[k] == v[k] { ToFrontEntries(a[p..p + 16], nn, k); }
  }

  /** Sections never reach the array's start while one is being filled. */
  lemma PositiveBases(a: seq<byte>, base: seq<nat>, l: seq<byte>, nn: nat, m: nat)
    requires Pulling(a, base, l, nn, m) && 0 < m < 16
    ensures |a| == MTFA_SIZE && |base| == 16 && base[m] > 0 && base[m] <= |a|
    ensures base[0] > 0 ==> base[m - 1] > 0
  {
    if m > 1 {
      PullingApart(a, base, l, nn, m, 0);
      PullingApart(a, base, l, nn, m, m - 1);
      PrevPositive(a, base, l, nn, m, m - 1);
    }
  }

  lemma {:induction false} PrevPositive(a: seq<byte>, base: seq<nat>, l: seq<byte>, nn: nat, m: nat, k: nat)
    requires Pulling(a, base, l, nn, m) && 0 < k < m < 16
    ensures base[k] > 0
  {
    assert Follows(base, k - 1, 16);
  }

  lemma RebasingBound(a: seq<byte>, base: seq<nat>, l: seq<byte>, ii: nat)
    requires Rebasing(a, base, l, ii + 1) && ii < 16
    ensures |a| == MTFA_SIZE && |base| == 16 && base[ii] <= 3840 + 16 * ii
  {
  }
}
