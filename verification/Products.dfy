/** Laws of multiplication, each proved where nothing else is in sight. */
module Products {

  lemma {:induction false} TimesUp(a: int, c: int, p: nat)
    requires a <= c
    ensures a * p <= c * p
    decreases p
  {
    if p > 0 {
      TimesUp(a, c, p - 1);
      assert a * (p - 1) == a * p - a && c * (p - 1) == c * p - c;
    }
  }

  /** A smaller factor leaves room for one more p. */
  lemma TimesStep(a: int, c: int, p: nat)
    requires a < c
    ensures a * p + p <= c * p
  {
    TimesUp(a + 1, c, p);
    Distribute(a, 1, p);
  }

  lemma Distribute(a: int, c: int, p: int)
    ensures (a + c) * p == a * p + c * p
  {
  }

  lemma Associate(a: int, c: int, p: int)
    ensures (a * c) * p == a * (c * p)
  {
  }
}
