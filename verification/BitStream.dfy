/** The bit writer of the compressor and the bit reader of the decompressor, each a 32-bit
    buffer in front of a byte sequence. */
module BitStream {
  import opened Powers
  import opened Rotations
  import opened Bits

  class BitWriter {
    var zbits: seq<byte>
    var bsBuff: nat
    var bsLive: nat
    /** the value of the live bits */
    ghost var top: nat
    /** bytes written earlier and handed on */
    ghost var gone: seq<byte>

    ghost predicate Valid()
      reads this
    {
      TopHolds(bsBuff, bsLive, top)
    }

    /** All bits written so far. */
    ghost function Written(): (b: seq<bool>)
      reads this
    {
      BytesBits(gone + zbits) + BitsOf(top, bsLive)
    }

    /** All bytes, and at most 32 live bits. */
    lemma WrittenSize()
      requires Valid()
      ensures |Written()| == 8 * (|gone| + |zbits|) + bsLive && bsLive <= 32
    {
    }

    constructor ()
      ensures Valid() && Written() == [] && zbits == [] && gone == []
    {
      zbits, gone := [], [];
      bsLive := 0;
      bsBuff := 0;
      top := 0;
    }

    /** The bytes in zbits have been handed on, and its space is used again from the start. */
    method Restart()
      requires Valid()
      modifies `zbits, `gone
      ensures Valid() && Written() == old(Written()) && zbits == [] && gone == old(gone + zbits)
    {
      gone := gone + zbits;
      zbits := [];
      assert gone + zbits == old(gone + zbits);
    }

    /** Moves whole bytes from the buffer to the output until fewer than eight bits are live. */
    method NeedW()
      requires Valid()
      modifies `zbits, `bsBuff, `bsLive, `top
      ensures Valid() && Written() == old(Written()) && bsLive < 8
    {
      hide TopHolds, BitsOf;
      while bsLive >= 8
        invariant Valid() && Written() == old(Written())
        decreases bsLive
      {
        PushByte();
      }
    }

    method PushByte()
      requires Valid() && bsLive >= 8
      modifies `zbits, `bsBuff, `bsLive, `top
      ensures Valid() && Written() == old(Written()) && bsLive == old(bsLive) - 8
      ensures zbits == old(zbits) + [bsBuffByte(old(bsBuff))]
    {
      hide TopHolds, BitsOf;
      TopByte(bsBuff, bsLive, top);
      TopBound(bsBuff, bsLive, top);
      ghost var q := top / Pow2(bsLive - 8);
      assert BytesBits(gone + (zbits + [bsBuffByte(bsBuff)])) == BytesBits(gone + zbits) + BitsOf(q, 8) by {
        assert gone + (zbits + [bsBuffByte(bsBuff)]) == (gone + zbits) + [bsBuffByte(bsBuff)];
        assert (gone + zbits + [bsBuffByte(bsBuff)])[..|gone + zbits|] == gone + zbits;
      }
      zbits := zbits + [bsBuffByte(bsBuff)];
      top := top % Pow2(bsLive - 8);
      bsBuff := (bsBuff * 256) % 0x1_0000_0000;
      bsLive := bsLive - 8;
    }

    /** Appends the n low bits of v; they land below the live bits without touching them. */
    method W(n: nat, v: nat)
      requires Valid() && n <= 24 && v < Pow2(n)
      modifies `zbits, `bsBuff, `bsLive, `top
      ensures Valid() && Written() == old(Written()) + BitsOf(v, n)
    {
      hide TopHolds, BitsOf, Pow2, BytesBits;
      NeedW();
      TopAppend(bsBuff, bsLive, top, n, v);
      var shifted := v * Pow2(32 - bsLive - n);
      ghost var t := top * Pow2(n) + v;
      assert BytesBits(gone + zbits) + (BitsOf(top, bsLive) + BitsOf(v, n)) == Written() + BitsOf(v, n);
      bsBuff := bsBuff + shifted;
      top := t;
      bsLive := bsLive + n;
    }

    /** Flushes the buffer, padding the last byte with zero bits. */
    method FinishWrite() returns (ghost padding: nat)
      requires Valid()
      modifies `zbits, `bsBuff, `bsLive, `top
      ensures Valid() && bsLive == 0 && padding < 8
      ensures BytesBits(gone + zbits) == old(Written()) + seq(padding, _ => false)
    {
      hide TopHolds, BitsOf;
      NeedW();
      padding := 0;
      if bsLive > 0 {
        padding := 8 - bsLive;
        Pad(bsBuff, bsLive, top);
        ghost var w := Written();
        top := top * Pow2(padding);
        bsLive := 8;
        assert Written() == w + BitsOf(0, padding);
        PushByte();
        ZeroBits(padding);
      }
      EmptyTop(top);
    }
  }

  function bsBuffByte(buff: nat): byte { (buff / 0x100_0000) % 256 }

  lemma EmptyTop(top: nat)
    ensures BitsOf(top, 0) == []
  {
  }

  lemma {:induction false} ZeroBits(n: nat)
    ensures BitsOf(0, n) == seq(n, _ => false)
  {
    if n > 0 { ZeroBits(n - 1); }
  }

  lemma Pad(buff: nat, live: nat, top: nat)
    requires TopHolds(buff, live, top) && live <= 8
    ensures TopHolds(buff, 8, top * Pow2(8 - live))
    ensures BitsOf(top * Pow2(8 - live), 8) == BitsOf(top, live) + BitsOf(0, 8 - live)
  {
    var n := 8 - live;
    TopAppend(buff, live, top, n, 0);
    assert live + n == 8;
  }

  class BitReader {
    const input: seq<byte>
    var next: nat
    var bsBuff: nat
    var bsLive: nat
    /** bits have been asked for that the input does not have */
    var starved: bool
    /** the value of the live bits */
    ghost var low: nat

    ghost predicate Valid()
      reads this
    {
      LowHolds(bsBuff, bsLive, low) && next <= |input|
    }

    /** The bits not yet consumed. */
    ghost function Pending(): seq<bool>
      reads this
      requires Valid()
    {
      BitsOf(low, bsLive) + BytesBits(input[next..])
    }

    constructor (input: seq<byte>)
      ensures Valid() && Pending() == BytesBits(input)
    {
      this.input := input;
      next := 0;
      bsBuff := 0;
      bsLive := 0;
      starved := false;
      low := 0;
      new;
      assert input[0..] == input;
    }

    /** Brings in one more byte of input. */
    method PullByte()
      requires Valid() && next < |input| && bsLive <= 24
      modifies this
      ensures Valid() && Pending() == old(Pending()) && bsLive == old(bsLive) + 8 && next == old(next) + 1
      ensures starved == old(starved)
    {
      hide LowHolds, BitsOf, BytesBits;
      var c := input[next];
      LowAppend(bsBuff, bsLive, low, c);
      BytesBitsFirst(input[next..]);
      assert input[next..][1..] == input[next + 1..];
      bsBuff := (bsBuff * 256) % 0x1_0000_0000 + c;
      low := low * 256 + c;
      bsLive := bsLive + 8;
      next := next + 1;
    }

    /** The next n bits as a number.  Stops without losing anything when the input runs out. */
    method GetBits(n: nat) returns (ok: bool, v: nat)
      requires Valid() && n <= 24
      modifies this
      ensures Valid()
      ensures ok <==> n <= |old(Pending())|
      ensures ok ==> v < Pow2(n) && old(Pending()) == BitsOf(v, n) + Pending()
      ensures !ok ==> Pending() == old(Pending())
      ensures starved <==> old(starved) || !ok
    {
      hide LowHolds, BitsOf, BytesBits;
      v := 0;
      while bsLive < n
        invariant Valid() && Pending() == old(Pending()) && starved == old(starved)
        decreases |input| - next
      {
        if next >= |input| {
          assert input[next..] == [];
          ok, starved := false, true;
          return;
        }
        PullByte();
      }
      LowTake(bsBuff, bsLive, low, n) by { LowLive(bsBuff, bsLive, low); }
      v := (bsBuff / Pow2(bsLive - n)) % Pow2(n);
      low := low % Pow2(bsLive - n);
      bsLive := bsLive - n;
      ok := true;
    }
  }

  lemma LowLive(buff: nat, live: nat, low: nat)
    requires LowHolds(buff, live, low)
    ensures live <= 32
  {
  }
}
