/** The FAST inverse transform: one array tt whose words pack a byte of the last column (low
    eight bits) and a link of the stable sort (the bits above). */
module InverseFast {
  import opened Rotations
  import opened Permutations
  import opened BurrowsWheeler

  function Low(w: nat): byte { w % 256 }

  function High(w: nat): nat { w / 256 }

  /** w | (i << 8), for a word whose upper bits are still clear. */
  function OrHigh(w: nat, i: nat): (r: nat)
    requires w < 256
    ensures Low(r) == w && High(r) == i
  {
    w + 256 * i
  }

  /** Byte counts as running sums: cftab[c] is the first sorted row that starts with c. */
  method RunningSums(nblock: nat, unzftab: array<nat>, cftab: array<nat>, ghost l: seq<byte>)
    returns (ok: bool)
    requires nblock == |l|
    requires unzftab.Length == 256 && cftab.Length == 257 && unzftab != cftab
    requires forall c :: 0 <= c < 256 ==> unzftab[c] == Occ(l, |l|, c)
    modifies cftab
    ensures ok
    ensures forall c :: 0 <= c <= 256 ==> cftab[c] == Less(l, |l|, c)
  {
    cftab[0] := 0;
    for i := 1 to 257
      invariant cftab[0] == 0
      invariant forall c :: 1 <= c < i ==> cftab[c] == unzftab[c - 1]
    {
      cftab[i] := unzftab[i - 1];
    }
    LessBounds(l, |l|);
    for i := 1 to 257
      invariant forall c :: 0 <= c < i ==> cftab[c] == Less(l, |l|, c)
      invariant forall c :: i <= c < 257 ==> cftab[c] == unzftab[c - 1]
    {
      LessNext(l, |l|, i - 1);
      cftab[i] := cftab[i] + cftab[i - 1];
    }
    ok := CheckTables(nblock, unzftab, cftab, l);
  }

  /** The sanity checks made before the links are built; they never reject honest counts. */
  method CheckTables(nblock: nat, unzftab: array<nat>, cftab: array<nat>, ghost l: seq<byte>)
    returns (ok: bool)
    requires nblock == |l|
    requires unzftab.Length == 256 && cftab.Length == 257
    requires forall c :: 0 <= c < 256 ==> unzftab[c] == Occ(l, |l|, c)
    requires forall c :: 0 <= c <= 256 ==> cftab[c] == Less(l, |l|, c)
    ensures ok
  {
    for i := 0 to 256 {
      if unzftab[i] > nblock { return false; }
    }
    for i := 0 to 257 {
      if cftab[i] > nblock { return false; }
    }
    for i := 1 to 257 {
      LessMonotone(l, |l|, i - 1, i);
      if cftab[i - 1] > cftab[i] { return false; }
    }
    return true;
  }

  /** The state the FAST decoder keeps between bytes. */
  class FastTable {
    const tt: array<nat>
    var tPos: nat
    const blockSize100k: nat
    ghost var column: seq<byte>
    ghost var sorted: seq<nat>

    /** tt packs the column and its stable sort; tPos is a row. */
    ghost predicate Valid()
      reads this, tt
    {
      && 0 < |column| <= tt.Length == 100000 * blockSize100k
      && IsStableSort(column, sorted)
      && tPos < |column|
      && forall j :: 0 <= j < |column| ==>
           tt[j] == OrHigh(column[j], sorted[j])
    }

    /** Takes over an array already holding the last column in its low bytes. */
    constructor (tt: array<nat>, nblock: nat, blockSize100k: nat, unzftab: array<nat>,
                 origPtr: nat, ghost l: seq<byte>)
      requires nblock == |l|
      requires 0 < |l| <= tt.Length == 100000 * blockSize100k && origPtr < |l|
      requires forall i :: 0 <= i < |l| ==> tt[i] == l[i]
      requires unzftab.Length == 256 && unzftab != tt
      requires forall c :: 0 <= c < 256 ==> unzftab[c] == Occ(l, |l|, c)
      modifies tt
      ensures Valid() && column == l && this.tt == tt && tPos == sorted[origPtr]
      ensures this.blockSize100k == blockSize100k
    {
      this.tt, this.blockSize100k, this.column := tt, blockSize100k, l;
      this.tPos := 0;
      new;
      var cftab := new nat[257];
      var ok := RunningSums(nblock, unzftab, cftab, l);
      sorted := Link(tt, nblock, cftab, l);
      tPos := High(tt[origPtr]);
    }

    /** The next byte: the one at row tPos, after which tPos follows the link. */
    method Get() returns (corrupt: bool, c: byte)
      requires Valid()
      modifies this`tPos
      ensures Valid() && !corrupt
      ensures c == column[old(tPos)] && tPos == sorted[old(tPos)]
    {
      hide Rank;
      corrupt, c := tPos >= 100000 * blockSize100k, 0;
      if !corrupt {
        tPos := tt[tPos];
        c := Low(tPos);
        tPos := High(tPos);
      }
    }
  }

  /** Counting sort of the column held in the low bytes, writing each row's index into the
      high part of the word it belongs to; words already written are still read correctly. */
  method Link(tt: array<nat>, nblock: nat, cftab: array<nat>, ghost l: seq<byte>)
    returns (ghost sorted: seq<nat>)
    requires nblock == |l|
    requires |l| <= tt.Length && cftab.Length == 257 && tt != cftab
    requires forall i :: 0 <= i < |l| ==> tt[i] == l[i]
    requires forall c :: 0 <= c <= 256 ==> cftab[c] == Less(l, |l|, c)
    modifies tt, cftab
    ensures IsStableSort(l, sorted)
    ensures forall j :: 0 <= j < |l| ==> tt[j] == OrHigh(l[j], sorted[j])
  {
    LinkStart(l, tt[..], cftab[..]);
    hide Linking, IsStableSort, Low, High, OrHigh;
    for i := 0 to nblock
      invariant Linking(l, i, tt[..], cftab[..])
    {
      LinkStep(l, i, tt[..], cftab[..]);
      var uc := Low(tt[i]);
      tt[cftab[uc]] := OrHigh(tt[cftab[uc]], i);
      cftab[uc] := cftab[uc] + 1;
    }
    sorted := LinkEnd(l, tt[..], cftab[..]);
  }

  /** The first i entries of the column have their row's link; the low bytes are those of the
      column still, and next[c] is the row for the next entry equal to c. */
  ghost predicate Linking(l: seq<byte>, i: nat, tt: seq<nat>, next: seq<nat>) {
    && i <= |l| <= |tt| && |next| == 257
    && (forall c :: 0 <= c < 256 ==> next[c] == Less(l, |l|, c) + Occ(l, i, c))
    && (forall j :: 0 <= j < |l| ==> Low(tt[j]) == l[j])
    && (forall k :: 0 <= k < |l| ==> High(tt[Ranks(l)[k]]) == if k < i then k else 0)
  }

  lemma LinkStart(l: seq<byte>, tt: seq<nat>, next: seq<nat>)
    requires |l| <= |tt| && |next| == 257
    requires forall i :: 0 <= i < |l| ==> tt[i] == l[i]
    requires forall c :: 0 <= c <= 256 ==> next[c] == Less(l, |l|, c)
    ensures Linking(l, 0, tt, next)
  {
    hide Rank;
  }

  lemma LinkStep(l: seq<byte>, i: nat, tt: seq<nat>, next: seq<nat>)
    requires Linking(l, i, tt, next) && i < |l|
    ensures Low(tt[i]) == l[i] && next[l[i]] < |tt| && tt[next[l[i]]] < 256
    ensures Linking(l, i + 1, tt[next[l[i]] := OrHigh(tt[next[l[i]]], i)], next[l[i] := next[l[i]] + 1])
  {
    hide OrHigh;
    var t, uc := Ranks(l), l[i];
    RanksArePerm(l);
    assert next[uc] == t[i];
    hide Rank;
  }

  lemma LinkEnd(l: seq<byte>, tt: seq<nat>, next: seq<nat>) returns (sorted: seq<nat>)
    requires Linking(l, |l|, tt, next)
    ensures IsStableSort(l, sorted)
    ensures forall j :: 0 <= j < |l| ==> tt[j] == OrHigh(l[j], sorted[j])
  {
    hide Rank;
    var t := Ranks(l);
    RanksArePerm(l);
    sorted := seq(|l|, j requires 0 <= j < |l| => High(tt[j]));
    forall j | 0 <= j < |l|
      ensures sorted[j] < |l| && t[sorted[j]] == j
    {
      var k := PermSurjective(t, |l|, j);
    }
  }
}
