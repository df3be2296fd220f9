/**
 * The multiply step `+*` (src/vm.c): 32 of them multiply A by N and add T, all
 * 64 bits of it, left in T and A.
 */
module MultiplyStep {
  import opened Arithmetic
  import opened Slices
  import opened Vm

  /** T and A as one number. */
  function Pair(s: State): nat {
    s.t * B + s.a
  }

  function StepsOf(s: State, n: nat): State {
    if n == 0 then s else PlusStar(StepsOf(s, n - 1))
  }

  /** A step halves the pair, exactly, once N was added in its high half and the odd bit dropped. */
  lemma {:induction false} OneStep(s: State)
    ensures 2 * Pair(PlusStar(s)) == Pair(s) + (if s.a % 2 == 1 then B * Nos(s) - 1 else 0)
    ensures PlusStar(s).a == s.a / 2 || PlusStar(s).a == s.a / 2 + 0x8000_0000
    ensures Nos(PlusStar(s)) == Nos(s)
  {
    var sum := s.t as nat + if s.a % 2 == 1 then Nos(s) else 0;
    assert sum == sum / 2 * 2 + sum % 2 && s.a == s.a / 2 * 2 + s.a % 2;
  }

  /** The bits of a from the n-th up. */
  function High(a: nat, n: nat): nat {
    NotNegative(a, Pow2(n));
    a / Pow2(n)
  }

  lemma {:induction false} NotNegative(a: nat, p: nat)
    requires p > 0
    ensures a / p >= 0
  {
    var q: int, r := a / p, a % p;
    assert a == q * p + r && r < p;
    TimesNegative(q, p);
  }

  lemma {:induction false} TimesNegative(q: int, p: nat)
    ensures q < 0 ==> q * p + p <= 0
  {
    if q < 0 {
      TimesLe(1, -q, p);
    }
  }

  /** After n steps A holds its bits not yet used, under n bits of the product. */
  lemma {:induction false} BitsLeft(s: State, n: nat) returns (low: nat)
    requires n <= 32
    ensures StepsOf(s, n).a == High(s.a, n) + Times(low, Pow2(32 - n)) && Nos(StepsOf(s, n)) == Nos(s)
  {
    if n == 0 {
      low := 0;
    } else {
      var l := BitsLeft(s, n - 1);
      assert Pow2(33 - n) == 2 * Pow2(32 - n) && StepsOf(s, n) == PlusStar(StepsOf(s, n - 1));
      hide PlusStar, StepsOf, Nos, Pair, Times, Pow2, High;
      var s', p, x := StepsOf(s, n - 1), Pow2(32 - n), High(s.a, n - 1);
      OneStep(s');
      Halved(s'.a, x, l, p, Pow2(33 - n));
      OneLess(s.a, n);
      low := if PlusStar(s').a == s'.a / 2 then l else l + Pow2(n - 1);
      if low != l {
        TopBit(n);
        Distribute(l, Pow2(n - 1), p);
      }
    }
  }

  lemma {:induction false} TopBit(n: nat)
    requires 0 < n <= 32
    ensures Times(Pow2(n - 1), Pow2(32 - n)) == 0x8000_0000
  {
    Pow2Sum(n - 1, 32 - n);
    Pow31();
  }

  lemma {:induction false} Halved(a: nat, x: nat, l: nat, p: nat, w: nat)
    requires w == 2 * p && a == x + Times(l, w)
    ensures a / 2 == x / 2 + Times(l, p) && a % 2 == x % 2
  {
    var y := l * p;
    assert l * w == 2 * y;
  }

  lemma {:induction false} OneLess(a: nat, n: nat)
    requires n > 0
    ensures High(a, n) == High(a, n - 1) / 2
  {
    DivTwice(a, Pow2(n - 1));
  }

  lemma {:induction false} DivTwice(a: nat, p: nat)
    requires p > 0
    ensures a / (2 * p) == a / p / 2
  {
    var q, r := a / p, a % p;
    TwoHalves(q, p);
    Quotient(a, 2 * p, q / 2, q % 2 * p + r);
  }

  lemma {:induction false} Distribute(a: nat, b: nat, p: nat)
    ensures Times(a + b, p) == Times(a, p) + Times(b, p)
  {}

  lemma {:induction false} Pow31()
    ensures Pow2(31) == 0x8000_0000
  {
    Pow32();
    assert Pow2(32) == 2 * Pow2(31);
  }

  /** The pair is the sum so far, moved down by the steps taken, less A's bits already used. n is N's weight. */
  lemma {:induction false} AfterSteps(s: State, k: nat, n: nat)
    requires k <= 32 && n == B * Nos(s)
    ensures Times(Pow2(k), Pair(StepsOf(s, k))) + s.a % Pow2(k) == Pair(s) + Times(n, s.a % Pow2(k))
  {
    hide PlusStar, Nos, Pair, Times;
    if k == 0 {
      NoSteps(Pair(s), n, s.a);
    } else {
      AfterSteps(s, k - 1, n);
      NextBit(s, k - 1);
      var s', p := StepsOf(s, k - 1), Pow2(k - 1);
      OneStep(s');
      ModTwice(s.a, p);
      Accumulated(p, Pair(s'), Pair(PlusStar(s')), s.a % p, n, s'.a % 2, Pair(s));
    }
  }

  /** The step looks at the bits of A in turn. */
  lemma {:induction false} NextBit(s: State, k: nat)
    requires k < 32
    ensures StepsOf(s, k).a % 2 == s.a / Pow2(k) % 2 && Nos(StepsOf(s, k)) == Nos(s)
  {
    HighBit(s, k);
  }

  lemma {:induction false} HighBit(s: State, k: nat)
    requires k < 32
    ensures StepsOf(s, k).a % 2 == High(s.a, k) % 2 && Nos(StepsOf(s, k)) == Nos(s)
  {
    assert Pow2(32 - k) == 2 * Pow2(31 - k);
    hide PlusStar, StepsOf, Nos, Pow2, Times, High;
    var low := BitsLeft(s, k);
    Halved(StepsOf(s, k).a, High(s.a, k), low, Pow2(31 - k), Pow2(32 - k));
  }

  lemma {:induction false} NoSteps(v: nat, n: nat, a: nat)
    ensures Times(Pow2(0), v) + a % Pow2(0) == v + Times(n, a % Pow2(0))
  {}

  lemma {:induction false} ModTwice(a: nat, p: nat)
    requires p > 0
    ensures a % (2 * p) == a % p + a / p % 2 * p
  {
    var q, r := a / p, a % p;
    TwoHalves(q, p);
    Quotient(a, 2 * p, q / 2, q % 2 * p + r);
  }

  lemma {:induction false} TwoHalves(q: nat, p: nat)
    ensures q * p == q / 2 * (2 * p) + q % 2 * p && q % 2 * p <= p
  {
    assert q == q / 2 * 2 + q % 2;
    Distribute(q / 2 * 2, q % 2, p);
    assert q / 2 * 2 * p == q / 2 * (2 * p);
  }

  lemma {:induction false} Accumulated(p: nat, v: nat, v': nat, r: nat, n: nat, odd: nat, v0: nat)
    requires odd < 2 && 2 * v' == v + (if odd == 1 then n - 1 else 0)
    requires Times(p, v) + r == v0 + Times(n, r)
    ensures Times(2 * p, v') + (r + odd * p) == v0 + Times(n, r + odd * p)
  {
    assert 2 * p * v' == p * (2 * v');
    if odd == 1 {
      assert p * (v + (n - 1)) == p * v + p * n - p;
      assert n * (r + p) == n * r + n * p;
    } else {
      assert odd * p == 0;
    }
  }

  lemma {:induction false} LastStep(v: nat, t: nat, n: nat, a: nat)
    requires Times(B, v) + a == t * B + a + Times(B * n, a)
    ensures v == t + n * a
  {
    var m := n * a;
    assert B * n * a == B * m;
  }

  /** 32 steps leave T + N * A. */
  lemma {:induction false} Multiplies(s: State)
    ensures Pair(StepsOf(s, 32)) == s.t + Nos(s) * s.a
  {
    hide StepsOf, PlusStar, Nos, Times;
    AfterSteps(s, 32, B * Nos(s));
    Pow32();
    LastStep(Pair(StepsOf(s, 32)), s.t, Nos(s), s.a);
  }
}
