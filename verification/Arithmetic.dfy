/** Machine words, and facts about products and quotients, that several modules need. */
module Arithmetic {
  const B: nat := 0x1_0000_0000

  type u32 = x: nat | x < 0x1_0000_0000

  /** Bit by bit: 1 where both have a 1. */
  function BitAnd(x: nat, y: nat): (z: nat)
    ensures z <= x
  {
    if x == 0 || y == 0 then 0 else 2 * BitAnd(x / 2, y / 2) + if x % 2 == 1 && y % 2 == 1 then 1 else 0
  }

  lemma {:induction false} Quotient(x: nat, p: nat, quot: nat, rem: nat)
    requires x == quot * p + rem && rem < p
    ensures x / p == quot && x % p == rem
  {
    var a, b := x / p, x % p;
    assert x == a * p + b && b < p;
    if a < quot {
      TimesLe(a + 1, quot, p);
    } else if a > quot {
      TimesLe(quot + 1, a, p);
    }
  }

  lemma {:induction false} TimesLe(a: nat, b: nat, p: nat)
    requires a <= b
    ensures a * p <= b * p
  {
    if a >= b {
    } else {
      TimesLe(a, b - 1, p);
      assert b * p == (b - 1) * p + p;
    }
  }
}
