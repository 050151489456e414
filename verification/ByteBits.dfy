/** Bytes as numbers and as bits. */
module ByteBits {

  lemma OneMore(x: bv8)
    requires x as nat < 255
    ensures (x + 1) as nat == x as nat + 1
  {
  }

  lemma ThroughNumber(x: bv8)
    ensures (x as nat) as bv8 == x
  {
  }

  /** Every byte is the number of a word. */
  lemma {:induction false} WordOf(c: nat) returns (x: bv8)
    requires c < 256
    ensures x as nat == c
  {
    x := 0;
    if c > 0 {
      var y := WordOf(c - 1);
      OneMore(y);
      x := y + 1;
    }
  }

  lemma ThroughBits(c: nat)
    requires c < 256
    ensures (c as bv8) as nat == c
  {
    var x := WordOf(c);
    ThroughNumber(x);
  }

  lemma Widened(x: bv8, y: bv8)
    ensures (x as bv32) <= 0xff && ((x as bv32) == (y as bv32) ==> x == y)
  {
  }

  /** Words are equal when their numbers are. */
  lemma SameNumber(a: bv32, b: bv32)
    requires a as int == b as int
    ensures a == b
  {
    ThroughInt(a);
    ThroughInt(b);
  }

  lemma ThroughInt(a: bv32)
    ensures (a as int) as bv32 == a
  {
  }
}
