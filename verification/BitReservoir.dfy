/** The bit accumulator of the inflaters: bits enter above those held, a byte at a time, and
    leave from below. */
module BitReservoir {
  import opened Powers
  import opened Rotations
  import opened LowBits

  /** The accumulator holds the last bits before byte next of the input. */
  ghost predicate Holds(input: seq<byte>, next: nat, hold: nat, bits: nat) {
    && next <= |input| && bits <= 8 * next && bits <= 32
    && hold == Low(High(Number(input), 8 * next - bits), bits)
  }

  ghost function Remaining(input: seq<byte>, at: nat): nat {
    High(Number(input), at)
  }

  function Times(a: nat, b: nat): nat {
    a * b
  }

  lemma PullKeeps(input: seq<byte>, next: nat, hold: nat, bits: nat)
    requires Holds(input, next, hold, bits) && next < |input| && bits <= 24
    ensures Holds(input, next + 1, hold + Times(input[next], Pow2(bits)), bits + 8)
  {
    hide Low, High, Pow2, Number;
    var v := Remaining(input, 8 * next - bits);
    TwoSteps(v, bits, 8);
    TwoSteps(Number(input), 8 * next - bits, bits);
    ByteAt(input, next);
    assert 8 * (next + 1) - (bits + 8) == 8 * next - bits;
    assert Pow2(bits) * input[next] == input[next] * Pow2(bits);
  }

  lemma DropKeeps(input: seq<byte>, next: nat, hold: nat, bits: nat, n: nat)
    requires Holds(input, next, hold, bits) && n <= bits
    ensures Holds(input, next, High(hold, n), bits - n)
    ensures Remaining(input, 8 * next - bits + n) == High(Remaining(input, 8 * next - bits), n)
  {
    hide Low, High, Pow2, Number;
    Window(Remaining(input, 8 * next - bits), n, bits - n);
    TwoSteps(Number(input), 8 * next - bits, n);
  }

  lemma PeekSees(input: seq<byte>, next: nat, hold: nat, bits: nat, n: nat)
    requires Holds(input, next, hold, bits) && n <= bits
    ensures Low(hold, n) == Low(Remaining(input, 8 * next - bits), n)
  {
    hide Low, High, Pow2, Number;
    Shorter(Remaining(input, 8 * next - bits), bits, n);
  }

  /** With no input left, everything left is held. */
  lemma HoldsAll(input: seq<byte>, hold: nat, bits: nat)
    requires Holds(input, |input|, hold, bits)
    ensures hold == Remaining(input, 8 * |input| - bits)
  {
    hide Low, High, Pow2;
    var v := Remaining(input, 8 * |input| - bits);
    SkipBytes(input, |input|);
    TwoSteps(Number(input), 8 * |input| - bits, bits);
    Parts(v, bits);
  }

  lemma HoldsBounds(input: seq<byte>, next: nat, hold: nat, bits: nat)
    requires Holds(input, next, hold, bits)
    ensures next <= |input| && bits <= 8 * next && bits <= 32 && hold < Pow2(bits)
  {
  }

  lemma FitsWord(hold: nat, bits: nat)
    requires hold < Pow2(bits) && bits <= 32
    ensures hold < 0x1_0000_0000
  {
    hide Pow2;
    Pow2Monotone(bits, 32);
    Pow2Values();
  }

  /** Bits a to a + b of those held, with zeros for those not held yet. */
  function HeldIndex(hold: nat, a: nat, b: nat): nat {
    High(Low(hold, a + b), a)
  }

  class Reservoir {
    const input: seq<byte>
    /** index of the next byte of input */
    var next: nat
    var hold: nat
    var bits: nat

    ghost predicate Valid()
      reads this
    {
      Holds(input, next, hold, bits)
    }

    /** How many bits of the input have been used up. */
    ghost function At(): nat
      reads this
      requires Valid()
    {
      8 * next - bits
    }

    /** The stream of bits not used up yet. */
    ghost function Ahead(): nat
      reads this
      requires Valid()
    {
      Remaining(input, At())
    }

    constructor (input: seq<byte>)
      ensures Valid() && this.input == input && next == 0 && bits == 0
    {
      this.input := input;
      next, hold, bits := 0, 0, 0;
    }

    lemma AtIs()
      requires Valid()
      ensures At() == 8 * next - bits && Ahead() == Remaining(input, At())
    {
    }

    /** Takes one more byte in; what is held fits in 32 bits. */
    method PullByte()
      requires Valid() && next < |input| && bits <= 24
      modifies this
      ensures Valid() && next == old(next) + 1 && bits == old(bits) + 8
      ensures At() == old(At()) && Ahead() == old(Ahead()) && hold < 0x1_0000_0000
    {
      hide Holds, Pow2, Low, High;
      PullKeeps(input, next, hold, bits);
      HoldsBounds(input, next, hold, bits);
      hold := hold + Times(input[next], Pow2(bits));
      bits := bits + 8;
      next := next + 1;
      HoldsBounds(input, next, hold, bits);
      FitsWord(hold, bits);
    }

    lemma AllHeld()
      requires Valid() && next >= |input|
      ensures Low(Ahead(), bits) == Ahead()
    {
      hide Low, High, Number;
      HoldsAll(input, hold, bits);
    }

    /** The low n bits held. */
    function Peek(n: nat): (r: nat)
      reads this
      requires Valid() && n <= bits
      ensures r == Low(Ahead(), n)
    {
      PeekSees(input, next, hold, bits, n);
      hold % Pow2(n)
    }

    /** The low n bits of what is held, with zeros for those not held yet. */
    function PeekShort(n: nat): (r: nat)
      reads this
      requires Valid()
      ensures r == Low(Low(Ahead(), bits), n)
    {
      hold % Pow2(n)
    }

    /** The same for b bits past the first a. */
    function PeekPast(a: nat, b: nat): (r: nat)
      reads this
      requires Valid()
      ensures r == HeldIndex(Low(Ahead(), bits), a, b)
    {
      (hold % Pow2(a + b)) / Pow2(a)
    }

    method Drop(n: nat)
      requires Valid() && n <= bits
      modifies this`hold, this`bits
      ensures Valid() && At() == old(At()) + n && bits == old(bits) - n
      ensures Ahead() == High(old(Ahead()), n)
    {
      hide Pow2, Low, Number;
      DropKeeps(input, next, hold, bits, n);
      hold := hold / Pow2(n);
      bits := bits - n;
    }

    /** Puts whole unused bytes back: no bit is lost and fewer than eight are kept. */
    method GiveBack()
      requires Valid()
      modifies this
      ensures Valid() && At() == old(At()) && bits < 8 && next == old(next) - old(bits) / 8
    {
      var len := bits / 8;
      PeekSees(input, next, hold, bits, bits - 8 * len);
      assert 8 * (next - len) - (bits - 8 * len) == 8 * next - bits;
      hide Pow2, High, Number;
      next := next - len;
      bits := bits - 8 * len;
      hold := hold % Pow2(bits);
    }
  }
}
