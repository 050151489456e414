/** A table of single bits packed in 32-bit words, scanned word by word where possible. */
module HeaderBits {

  import opened WordBits

  /** bits spells out the words. */
  ghost predicate Spells(words: seq<bv32>, bits: seq<bool>) {
    && |bits| == 32 * |words|
    && forall k {:trigger bits[k]} :: 0 <= k < |bits| ==> bits[k] == BitAt(words[k / 32], k % 32)
  }

  lemma SpellsUpdate(words: seq<bv32>, bits: seq<bool>, k: nat)
    requires Spells(words, bits) && k < |bits|
    ensures Spells(words[k / 32 := Or(words[k / 32], Mask(k % 32))], bits[k := true])
    ensures Spells(words[k / 32 := AndNot(words[k / 32], Mask(k % 32))], bits[k := false])
  {
    hide BitAt, Or, AndNot, Mask;
    var ws, bs := words[k / 32 := Or(words[k / 32], Mask(k % 32))], bits[k := true];
    var wc, bc := words[k / 32 := AndNot(words[k / 32], Mask(k % 32))], bits[k := false];
    forall j | 0 <= j < |bits|
      ensures bs[j] == BitAt(ws[j / 32], j % 32) && bc[j] == BitAt(wc[j / 32], j % 32)
    {
      assert bits[j] == BitAt(words[j / 32], j % 32);
      if j / 32 == k / 32 { SetBit(words[k / 32], k % 32, j % 32); }
    }
  }

  /** A word holding a clear bit is not all ones; one holding a set bit is not zero. */
  lemma WordScan(words: seq<bv32>, bits: seq<bool>, k: nat)
    requires Spells(words, bits) && k < |bits| && k % 32 == 0
    ensures words[k / 32] == 0xffff_ffff ==> forall j :: k <= j < k + 32 && j < |bits| ==> bits[j]
    ensures words[k / 32] == 0 ==> forall j :: k <= j < k + 32 && j < |bits| ==> !bits[j]
  {
    hide BitAt;
    forall j: nat | k <= j < k + 32 && j < |bits|
      ensures words[k / 32] == 0xffff_ffff ==> bits[j]
      ensures words[k / 32] == 0 ==> !bits[j]
    {
      FullWord(j % 32);
      assert j / 32 == k / 32;
    }
  }

  class BitTable {
    const words: array<bv32>
    ghost var bits: seq<bool>

    ghost predicate Valid()
      reads this, words
    {
      Spells(words[..], bits)
    }

    /** Takes over an array of words, zeroing the first cleared of them. */
    constructor (words: array<bv32>, cleared: nat)
      requires cleared <= words.Length
      modifies words
      ensures Valid() && this.words == words && |bits| == 32 * words.Length
      ensures forall k :: 0 <= k < 32 * cleared ==> !bits[k]
    {
      this.words := words;
      this.bits := [];
      new;
      hide BitAt;
      for i := 0 to cleared
        modifies words
        invariant forall j :: 0 <= j < i ==> words[j] == 0
      {
        words[i] := 0;
      }
      bits := seq(32 * words.Length, k requires 0 <= k < 32 * words.Length reads words => BitAt(words[k / 32], k % 32));
      forall k | 0 <= k < 32 * cleared ensures !bits[k] {
        FullWord(k % 32);
      }
    }

    method Set(k: nat)
      requires Valid() && k < |bits|
      modifies this, words
      ensures Valid() && bits == old(bits)[k := true]
    {
      hide BitAt, Or, Mask;
      SpellsUpdate(words[..], bits, k);
      words[k / 32] := Or(words[k / 32], Mask(k % 32));
      bits := bits[k := true];
    }

    method Clear(k: nat)
      requires Valid() && k < |bits|
      modifies this, words
      ensures Valid() && bits == old(bits)[k := false]
    {
      hide BitAt, AndNot, Mask;
      SpellsUpdate(words[..], bits, k);
      words[k / 32] := AndNot(words[k / 32], Mask(k % 32));
      bits := bits[k := false];
    }

    method IsSet(k: nat) returns (b: bool)
      requires Valid() && k < |bits|
      ensures b == bits[k]
    {
      hide And, Mask;
      b := BitAt(words[k / 32], k % 32);
    }

    /** The first bit from start on whose value is not v, given that there is one at or before
        stop: bit by bit up to a word boundary, then whole words, then bit by bit again. */
    method Skip(start: nat, v: bool, ghost stop: nat) returns (k: nat)
      requires Valid() && start <= stop < |bits| && bits[stop] != v
      ensures start <= k <= stop && bits[k] != v
      ensures forall j :: start <= j < k ==> bits[j] == v
    {
      hide Spells;
      k := start;
      var b := IsSet(k);
      while b == v && k % 32 != 0
        invariant start <= k <= stop && b == bits[k]
        invariant forall j :: start <= j < k ==> bits[j] == v
        decreases stop - k
      {
        k := k + 1;
        b := IsSet(k);
      }
      if b == v {
        k := SkipWords(k, v, stop);
        b := IsSet(k);
        while b == v
          invariant start <= k <= stop && b == bits[k]
          invariant forall j :: start <= j < k ==> bits[j] == v
          decreases stop - k
        {
          k := k + 1;
          b := IsSet(k);
        }
      }
    }

    method SkipWords(start: nat, v: bool, ghost stop: nat) returns (k: nat)
      requires Valid() && start <= stop < |bits| && bits[stop] != v && start % 32 == 0
      ensures start <= k <= stop
      ensures forall j :: start <= j < k ==> bits[j] == v
    {
      k := start;
      WordScan(words[..], bits, k);
      while words[k / 32] == (if v then 0xffff_ffff else 0)
        invariant start <= k <= stop && k % 32 == 0
        invariant forall j :: start <= j < k ==> bits[j] == v
        invariant words[k / 32] == (if v then 0xffff_ffff else 0) ==>
                    forall j :: k <= j < k + 32 && j < |bits| ==> bits[j] == v
        decreases stop - k
      {
        k := k + 32;
        WordScan(words[..], bits, k);
      }
    }
  }
}
