/**
 * Poly1305 (section 2.5 of RFC 8439) as src/monocypher.c computes it: five
 * 32-bit limbs of accumulator, reduced only in part after each block.
 */
module Poly1305 {
  import opened Arithmetic
  import opened Limbs

  const B2: nat := 0x1_0000_0000_0000_0000
  const B3: nat := 0x1_0000_0000_0000_0000_0000_0000
  const B4: nat := 0x1_0000_0000_0000_0000_0000_0000_0000_0000
  const P: nat := 0x3_ffff_ffff_ffff_ffff_ffff_ffff_ffff_fffb    // 2^130 - 5

  // ---- the standard's definition --------------------------------------------------

  /** A block as a number, with a bit added beyond its bytes. */
  function BlockNum(b: seq<u8>): nat {
    LeVal(b) + Pow256(|b|)
  }

  // Products are reasoned about through this recursive copy of multiplication,
  // so that every step below is linear.

  function Mul(a: nat, b: nat): nat {
    if a == 0 then 0 else b + Mul(a - 1, b)
  }

  lemma {:induction false} IsMul(a: nat, b: nat)
    ensures Mul(a, b) == a * b
  {
    if a == 0 {
    } else {
      IsMul(a - 1, b);
      assert (a - 1) * b == a * b - b;
    }
  }

  function MulMod(a: nat, r: nat): nat {
    Mul(a, r) % P
  }

  lemma {:induction false} MulModIs(a: nat, r: nat)
    ensures MulMod(a, r) == a * r % P
  {
    IsMul(a, r);
  }

  type Step = (nat, seq<u8>) -> nat

  /** A message taken 16 bytes at a time, the last block perhaps shorter. */
  function Fold(a: nat, msg: seq<u8>, f: Step): nat
    decreases |msg|
  {
    if msg == [] then a
    else if |msg| <= 16 then f(a, msg)
    else Fold(f(a, msg[..16]), msg[16..], f)
  }

  /** What a block does to the accumulator. */
  function Times(r: nat): Step {
    (a: nat, b: seq<u8>) => MulMod(a + BlockNum(b), r)
  }

  /** The standard's mask 0x0ffffffc0ffffffc0ffffffc0fffffff, least significant byte first. */
  const MASK: seq<u8> := [0xFF, 0xFF, 0xFF, 0x0F, 0xFC, 0xFF, 0xFF, 0x0F, 0xFC, 0xFF, 0xFF, 0x0F, 0xFC, 0xFF, 0xFF, 0x0F]

  /** The first half of the key, and the mask. */
  function Clamp(key: seq<u8>): (r: seq<u8>)
    requires |key| == 16
    ensures |r| == 16
  {
    seq(16, i requires 0 <= i < 16 => BitAnd(key[i], MASK[i]))
  }

  /** The tag, as a number. */
  function Tag(key: seq<u8>, msg: seq<u8>): nat
    requires |key| == 32
  {
    (Fold(0, msg, Times(LeVal(Clamp(key[..16])))) + LeVal(key[16..])) % B4
  }

  // ---- one block -----------------------------------------------------------------------

  predicate ClampedR(r: seq<u32>) {
    && |r| == 4 && r[0] <= 0x0fffffff
    && (forall i :: 1 <= i < 4 ==> r[i] <= 0x0ffffffc && r[i] % 4 == 0)
  }

  predicate Bounded(h: seq<u32>) {
    |h| == 5 && h[4] <= 4
  }

  function Num4(x: nat, y: nat, z: nat, w: nat): nat {
    x + B * y + B2 * z + B3 * w
  }

  function HVal(h: seq<u32>): nat
    requires |h| == 5
  {
    Num4(h[0], h[1], h[2], h[3]) + B4 * h[4]
  }

  function RVal(r: seq<u32>): nat
    requires |r| == 4
  {
    Num4(r[0], r[1], r[2], r[3])
  }

  lemma {:induction false} MulSum(a: nat, b: nat, c: nat)
    ensures Mul(a, b + c) == Mul(a, b) + Mul(a, c)
  {
    if a == 0 {
    } else {
      MulSum(a - 1, b, c);
    }
  }

  lemma {:induction false} MulSumLeft(a: nat, b: nat, c: nat)
    ensures Mul(a + b, c) == Mul(a, c) + Mul(b, c)
  {
    if a == 0 {
    } else {
      MulSumLeft(a - 1, b, c);
    }
  }

  lemma {:induction false} MulBound(a: nat, b: nat, am: nat, bm: nat)
    requires a <= am && b <= bm
    ensures Mul(a, b) <= am * bm
  {
    IsMul(a, b);
    MulLe(a, b, bm);
    MulLe(bm, a, am);
    assert a * bm == bm * a && am * bm == bm * am;
  }

  method Product(a: nat, b: nat) returns (x: nat)
    ensures x == Mul(a, b)
  {
    IsMul(a, b);
    x := a * b;
  }

  /** Five products of limbs of these sizes fit 64 bits. */
  method Dot(s0: nat, a: nat, s1: nat, b: nat, s2: nat, c: nat, s3: nat, d: nat, s4: nat, e: nat) returns (x: u64)
    requires s0 <= 0x1_ffff_fffe && s1 <= 0x1_ffff_fffe && s2 <= 0x1_ffff_fffe && s3 <= 0x1_ffff_fffe && s4 <= 5
    requires a <= 0x0fff_ffff && b <= 0x13ff_fffb && c <= 0x13ff_fffb && d <= 0x13ff_fffb && e <= 0x13ff_fffb
    ensures x == Mul(s0, a) + Mul(s1, b) + Mul(s2, c) + Mul(s3, d) + Mul(s4, e)
  {
    var y0 := Product(s0, a);
    var y1 := Product(s1, b);
    var y2 := Product(s2, c);
    var y3 := Product(s3, d);
    var y4 := Product(s4, e);
    MulBound(s0, a, 0x1_ffff_fffe, 0x0fff_ffff);
    MulBound(s1, b, 0x1_ffff_fffe, 0x13ff_fffb);
    MulBound(s2, c, 0x1_ffff_fffe, 0x13ff_fffb);
    MulBound(s3, d, 0x1_ffff_fffe, 0x13ff_fffb);
    MulBound(s4, e, 5, 0x13ff_fffb);
    x := y0 + y1 + y2 + y3 + y4;
  }

  /** x3 has no factor above r's own limbs, so its high half is small. */
  lemma {:induction false} X3Fits(s0: nat, a: nat, s1: nat, b: nat, s2: nat, c: nat, s3: nat, d: nat, s4: nat, e: nat)
    requires s0 <= 0x1_ffff_fffe && s1 <= 0x1_ffff_fffe && s2 <= 0x1_ffff_fffe && s3 <= 0x1_ffff_fffe && s4 <= 5
    requires a <= 0x0fff_fffc && b <= 0x0fff_fffc && c <= 0x0fff_fffc && d <= 0x0fff_ffff && e <= 0x13ff_fffb
    ensures Mul(s0, a) + Mul(s1, b) + Mul(s2, c) + Mul(s3, d) + Mul(s4, e) < B * 0x7fff_ffe7
  {
    MulBound(s0, a, 0x1_ffff_fffe, 0x0fff_fffc);
    MulBound(s1, b, 0x1_ffff_fffe, 0x0fff_fffc);
    MulBound(s2, c, 0x1_ffff_fffe, 0x0fff_fffc);
    MulBound(s3, d, 0x1_ffff_fffe, 0x0fff_ffff);
    MulBound(s4, e, 5, 0x13ff_fffb);
  }

  lemma {:induction false} MulScale(a: nat, b: nat, k: nat)
    ensures Mul(a, k * b) == k * Mul(a, b)
  {
    IsMul(a, k * b);
    IsMul(a, b);
    assert a * (k * b) == k * (a * b);
  }

  lemma {:induction false} ScaleLeft(a: nat, b: nat, k: nat)
    ensures Mul(k * a, b) == k * Mul(a, b)
  {
    IsMul(k * a, b);
    IsMul(a, b);
    assert k * a * b == k * (a * b);
  }

  /** s times r, limb of r by limb of r. */
  lemma {:induction false} TimesR(s: nat, r0: nat, r1: nat, r2: nat, r3: nat)
    ensures Mul(s, Num4(r0, r1, r2, r3)) == Num4(Mul(s, r0), Mul(s, r1), Mul(s, r2), Mul(s, r3))
  {
    hide Mul;
    var t1, t2, t3 := B * r1, B2 * r2, B3 * r3;
    var u2 := r0 + t1;
    var u3 := u2 + t2;
    assert Num4(r0, r1, r2, r3) == u3 + t3;
    MulSum(s, u3, t3);
    MulSum(s, u2, t2);
    MulSum(s, r0, t1);
    MulScale(s, r1, B);
    MulScale(s, r2, B2);
    MulScale(s, r3, B3);
  }

  /** A five-limb number times r, limb by limb. */
  lemma {:induction false} TimesFive(s0: nat, s1: nat, s2: nat, s3: nat, s4: nat, r: nat)
    ensures Mul(Num4(s0, s1, s2, s3) + B4 * s4, r) ==
              Num4(Mul(s0, r), Mul(s1, r), Mul(s2, r), Mul(s3, r)) + B4 * Mul(s4, r)
  {
    hide Mul;
    var t1, t2, t3, t4 := B * s1, B2 * s2, B3 * s3, B4 * s4;
    var u2 := s0 + t1;
    var u3 := u2 + t2;
    var u4 := u3 + t3;
    assert Num4(s0, s1, s2, s3) == u4;
    MulSumLeft(u4, t4, r);
    MulSumLeft(u3, t3, r);
    MulSumLeft(u2, t2, r);
    MulSumLeft(s0, t1, r);
    ScaleLeft(s1, r, B);
    ScaleLeft(s2, r, B2);
    ScaleLeft(s3, r, B3);
    ScaleLeft(s4, r, B4);
  }

  /** r as poly_blocks splits it: q without its two low bits, e those bits of r0, rr five times q. */
  datatype Factors = Factors(r0: nat, r1: nat, r2: nat, r3: nat, q0: nat, q1: nat, q2: nat, q3: nat, e: nat,
                             rr0: nat, rr1: nat, rr2: nat, rr3: nat)
  {
    predicate Valid() {
      && r0 == 4 * q0 + e && r1 == 4 * q1 && r2 == 4 * q2 && r3 == 4 * q3
      && rr0 == 5 * q0 && rr1 == 5 * q1 && rr2 == 5 * q2 && rr3 == 5 * q3
    }
  }

  lemma {:induction false} Mul45(s: nat, q: nat)
    ensures Mul(s, 4 * q) == 4 * Mul(s, q) && Mul(s, 5 * q) == 5 * Mul(s, q)
  {
    if s == 0 {
    } else {
      Mul45(s - 1, q);
    }
  }

  /** A limb's products with r: 4 for each by its high part, where rr's have 5. */
  lemma {:induction false} LimbProducts(s: nat, f: Factors)
    requires f.Valid()
    ensures Mul(s, f.r0) == 4 * Mul(s, f.q0) + Mul(s, f.e) && Mul(s, f.rr0) == 5 * Mul(s, f.q0)
    ensures Mul(s, f.r1) == 4 * Mul(s, f.q1) && Mul(s, f.rr1) == 5 * Mul(s, f.q1)
    ensures Mul(s, f.r2) == 4 * Mul(s, f.q2) && Mul(s, f.rr2) == 5 * Mul(s, f.q2)
    ensures Mul(s, f.r3) == 4 * Mul(s, f.q3) && Mul(s, f.rr3) == 5 * Mul(s, f.q3)
  {
    MulSum(s, 4 * f.q0, f.e);
    Mul45(s, f.q0);
    Mul45(s, f.q1);
    Mul45(s, f.q2);
    Mul45(s, f.q3);
  }

  /** The carry-free product, with the limbs above 2^128 folded back, is the product modulo P. */
  lemma {:induction false} FoldedProduct(s0: nat, s1: nat, s2: nat, s3: nat, s4: nat, f: Factors,
                                         x0: nat, x1: nat, x2: nat, x3: nat)
    returns (k: nat)
    requires f.Valid()
    requires x0 == Mul(s0, f.r0) + Mul(s1, f.rr3) + Mul(s2, f.rr2) + Mul(s3, f.rr1) + Mul(s4, f.rr0)
    requires x1 == Mul(s0, f.r1) + Mul(s1, f.r0) + Mul(s2, f.rr3) + Mul(s3, f.rr2) + Mul(s4, f.rr1)
    requires x2 == Mul(s0, f.r2) + Mul(s1, f.r1) + Mul(s2, f.r0) + Mul(s3, f.rr3) + Mul(s4, f.rr2)
    requires x3 == Mul(s0, f.r3) + Mul(s1, f.r2) + Mul(s2, f.r1) + Mul(s3, f.r0) + Mul(s4, f.rr3)
    ensures Mul(Num4(s0, s1, s2, s3) + B4 * s4, Num4(f.r0, f.r1, f.r2, f.r3))
            == Num4(x0, x1, x2, x3) + B4 * Mul(s4, f.e) + k * P
  {
    hide Mul;
    TimesFive(s0, s1, s2, s3, s4, Num4(f.r0, f.r1, f.r2, f.r3));
    TimesR(s0, f.r0, f.r1, f.r2, f.r3);
    TimesR(s1, f.r0, f.r1, f.r2, f.r3);
    TimesR(s2, f.r0, f.r1, f.r2, f.r3);
    TimesR(s3, f.r0, f.r1, f.r2, f.r3);
    TimesR(s4, f.r0, f.r1, f.r2, f.r3);
    LimbProducts(s1, f);
    LimbProducts(s2, f);
    LimbProducts(s3, f);
    LimbProducts(s4, f);
    k := Num4(Mul(s1, f.q3) + Mul(s2, f.q2) + Mul(s3, f.q1) + Mul(s4, f.q0),
              Mul(s2, f.q3) + Mul(s3, f.q2) + Mul(s4, f.q1),
              Mul(s3, f.q3) + Mul(s4, f.q2),
              Mul(s4, f.q3));
  }

  /** poly_blocks' loop body: h = (h + c) * r, c four limbs and `end` above them. */
  method Block(h: seq<u32>, r: seq<u32>, c: seq<u32>, end: nat) returns (h': seq<u32>)
    requires Bounded(h) && ClampedR(r) && |c| == 4 && end <= 1
    ensures Bounded(h')
    ensures HVal(h') % P == MulMod(HVal(h) + RVal(c) + B4 * end, RVal(r))
  {
    var r0, r1, r2, r3 := r[0], r[1], r[2], r[3];
    var rr0: u32 := r0 / 4 * 5;
    var rr1: u32 := r1 / 4 + r1;
    var rr2: u32 := r2 / 4 + r2;
    var rr3: u32 := r3 / 4 + r3;
    var rr4: u32 := r0 % 4;
    var s0: u64 := h[0] as u64 + c[0];
    var s1: u64 := h[1] as u64 + c[1];
    var s2: u64 := h[2] as u64 + c[2];
    var s3: u64 := h[3] as u64 + c[3];
    var s4: u32 := h[4] + end;
    h' := MulReduce(s0, s1, s2, s3, s4,
                    Factors(r0, r1, r2, r3, r0 / 4, r1 / 4, r2 / 4, r3 / 4, rr4, rr0, rr1, rr2, rr3));
  }

  /** (h + c) * r without carries, then the partial reduction. */
  method MulReduce(s0: nat, s1: nat, s2: nat, s3: nat, s4: nat, f: Factors) returns (h: seq<u32>)
    requires f.Valid()
    requires s0 <= 0x1_ffff_fffe && s1 <= 0x1_ffff_fffe && s2 <= 0x1_ffff_fffe && s3 <= 0x1_ffff_fffe && s4 <= 5
    requires f.r1 <= 0x0fff_fffc && f.r2 <= 0x0fff_fffc && f.r3 <= 0x0fff_fffc && f.r0 <= 0x0fff_ffff && f.e <= 3
    ensures Bounded(h)
    ensures HVal(h) % P == MulMod(Num4(s0, s1, s2, s3) + B4 * s4, Num4(f.r0, f.r1, f.r2, f.r3))
  {
    var x0 := Dot(s0, f.r0, s1, f.rr3, s2, f.rr2, s3, f.rr1, s4, f.rr0);
    var x1 := Dot(s0, f.r1, s1, f.r0, s2, f.rr3, s3, f.rr2, s4, f.rr1);
    var x2 := Dot(s0, f.r2, s1, f.r1, s2, f.r0, s3, f.rr3, s4, f.rr2);
    var x3 := Dot(s0, f.r3, s1, f.r2, s2, f.r1, s3, f.r0, s4, f.rr3);
    X3Fits(s0, f.r3, s1, f.r2, s2, f.r1, s3, f.r0, s4, f.rr3);
    MulBound(s4, f.e, 5, 3);
    var x4 := Product(s4, f.e);
    h := PartReduce(x0, x1, x2, x3, x4);
    FoldedMod(s0, s1, s2, s3, s4, f, x0, x1, x2, x3);
  }

  lemma {:induction false} SameMod(s: nat, r: nat, x: nat, k: nat)
    requires Mul(s, r) == x + k * P
    ensures MulMod(s, r) == x % P
  {
    IsMul(s, r);
    ModP(x, s * r, k);
  }

  lemma {:induction false} FoldedMod(s0: nat, s1: nat, s2: nat, s3: nat, s4: nat, f: Factors,
                                     x0: nat, x1: nat, x2: nat, x3: nat)
    requires f.Valid()
    requires x0 == Mul(s0, f.r0) + Mul(s1, f.rr3) + Mul(s2, f.rr2) + Mul(s3, f.rr1) + Mul(s4, f.rr0)
    requires x1 == Mul(s0, f.r1) + Mul(s1, f.r0) + Mul(s2, f.rr3) + Mul(s3, f.rr2) + Mul(s4, f.rr1)
    requires x2 == Mul(s0, f.r2) + Mul(s1, f.r1) + Mul(s2, f.r0) + Mul(s3, f.rr3) + Mul(s4, f.rr2)
    requires x3 == Mul(s0, f.r3) + Mul(s1, f.r2) + Mul(s2, f.r1) + Mul(s3, f.r0) + Mul(s4, f.rr3)
    ensures MulMod(Num4(s0, s1, s2, s3) + B4 * s4, Num4(f.r0, f.r1, f.r2, f.r3))
            == (Num4(x0, x1, x2, x3) + B4 * Mul(s4, f.e)) % P
  {
    hide Mul, MulMod, Num4;
    var k := FoldedProduct(s0, s1, s2, s3, s4, f, x0, x1, x2, x3);
    SameMod(Num4(s0, s1, s2, s3) + B4 * s4, Num4(f.r0, f.r1, f.r2, f.r3),
            Num4(x0, x1, x2, x3) + B4 * Mul(s4, f.e), k);
  }

  lemma {:induction false} ModP(a: nat, b: nat, k: nat)
    requires b == a + k * P
    ensures a % P == b % P
  {}

  lemma {:induction false} Carried(x0: nat, x1: nat, x2: nat, x3: nat, x4: nat,
                                   u5: nat, u0: nat, u1: nat, u2: nat, u3: nat, u4: nat)
    requires u5 == x4 + x3 / B
    requires u0 == u5 / 4 * 5 + x0 % B
    requires u1 == u0 / B + x1 % B + x0 / B
    requires u2 == u1 / B + x2 % B + x1 / B
    requires u3 == u2 / B + x3 % B + x2 / B
    requires u4 == u3 / B + u5 % 4
    ensures Num4(x0, x1, x2, x3) + B4 * x4 == Num4(u0 % B, u1 % B, u2 % B, u3 % B) + B4 * u4 + u5 / 4 * P
  {}

  /** The partial reduction modulo 2^130 - 5: what is taken off is a multiple of P. */
  method PartReduce(x0: u64, x1: u64, x2: u64, x3: u64, x4: u32) returns (h: seq<u32>)
    requires x4 <= 15 && x3 / B <= 0x7fff_ffe6
    ensures Bounded(h) && HVal(h) % P == (Num4(x0, x1, x2, x3) + B4 * x4) % P
  {
    var u5: u32 := x4 + x3 / B;
    var u0: u64 := u5 / 4 * 5 + x0 % B;
    var u1: u64 := u0 / B + x1 % B + x0 / B;
    var u2: u64 := u1 / B + x2 % B + x1 / B;
    var u3: u64 := u2 / B + x3 % B + x2 / B;
    var u4: u32 := u3 / B + u5 % 4;
    h := [u0 % B, u1 % B, u2 % B, u3 % B, u4];
    Carried(x0, x1, x2, x3, x4, u5, u0, u1, u2, u3, u4);
    ModP(HVal(h), Num4(x0, x1, x2, x3) + B4 * x4, u5 / 4);
  }

  // ---- messages --------------------------------------------------------------------------

  /** The accumulator need not be reduced before it is multiplied. */
  lemma {:induction false} Unreduced(a: nat, n: nat, r: nat)
    ensures MulMod(a + n, r) == MulMod(a % P + n, r)
  {
    var k := a / P;
    assert a + n == (a % P + n) + k * P;
    IsMul(a + n, r);
    IsMul(a % P + n, r);
    MulSumLeft(a % P + n, k * P, r);
    ScaleLeft(k, r, P);
    assert P * k == k * P;
    ModP(Mul(a % P + n, r), Mul(a + n, r), Mul(k, r));
  }

  /** A last block of 1 to 16 bytes after whole blocks. */
  lemma {:induction false} FoldAppend(a: nat, m: seq<u8>, b: seq<u8>, f: Step)
    requires |m| % 16 == 0 && 0 < |b| <= 16
    ensures Fold(a, m + b, f) == f(Fold(a, m, f), b)
    decreases |m|
  {
    FoldConcat(a, m, b, f);
  }

  lemma {:induction false} FoldConcat(a: nat, m: seq<u8>, n: seq<u8>, f: Step)
    requires |m| % 16 == 0
    ensures Fold(a, m + n, f) == Fold(Fold(a, m, f), n, f)
    decreases |m|
  {
    if m == [] {
      assert m + n == n;
    } else if n == [] {
      assert m + n == m;
    } else {
      assert (m + n)[..16] == m[..16] && (m + n)[16..] == m[16..] + n;
      FoldConcat(f(a, m[..16]), m[16..], n, f);
      if |m| == 16 {
        assert m[..16] == m;
      }
    }
  }

  lemma {:induction false} Load4(b: seq<u8>)
    requires |b| == 16
    ensures RVal(LoadLe(b)) == LeVal(b)
  {
    LoadLeVal(b);
    Val4Limbs(LoadLe(b));
  }

  lemma {:induction false} Pow16()
    ensures Pow256(16) == B4
  {
    assert Pow256(4) == B;
    assert Pow256(8) == B2;
    assert Pow256(12) == B3;
  }

  lemma {:induction false} LeValZeros(n: nat)
    ensures LeVal(seq(n, i => 0)) == 0
  {
    if n == 0 {
    } else {
      assert seq(n, i => 0)[1..] == seq(n - 1, i => 0);
      LeValZeros(n - 1);
    }
  }

  /** The final 1 after a short block, then zeros, is the bit beyond its bytes. */
  lemma {:induction false} PaddedNum(b: seq<u8>, n: nat)
    ensures LeVal(b + [1] + seq(n, i => 0)) == BlockNum(b)
  {
    var z := seq(n, i => 0);
    if b == [] {
      assert (b + [1] + z)[1..] == z;
      LeValZeros(n);
    } else {
      assert (b + [1] + z)[1..] == b[1..] + [1] + z;
      PaddedNum(b[1..], n);
    }
  }

  // ---- clamping -----------------------------------------------------------------------------

  function Masked(x: u32): (y: u32)
    ensures y <= 0x0fff_fffc && y % 4 == 0
  {
    x % 0x1000_0000 / 4 * 4
  }

  lemma {:induction false} AndHalves(x: nat, y: nat)
    ensures BitAnd(x, 0) == 0
    ensures BitAnd(x, y) == 2 * BitAnd(x / 2, y / 2) + if x % 2 == 1 && y % 2 == 1 then 1 else 0
  {}

  /** And with n ones, the number m, leaves the lowest n bits. */
  lemma {:induction false} AndOnes(x: nat, m: nat, n: nat)
    requires 0 < n <= 8 && m == [0, 1, 3, 7, 0xF, 0x1F, 0x3F, 0x7F, 0xFF][n]
    ensures BitAnd(x, m) == LowBits(x, n)
  {
    hide BitAnd;
    AndHalves(x, m);
    if n == 1 {
      AndHalves(x / 2, 0);
      assert LowBits(x / 2, 0) == 0;
    } else {
      AndOnes(x / 2, m / 2, n - 1);
    }
  }

  function LowBits(x: nat, n: nat): nat {
    if n == 0 then 0 else 2 * LowBits(x / 2, n - 1) + x % 2
  }

  lemma {:induction false} FourBits(x: nat)
    ensures LowBits(x, 4) == x % 16
  {
    var q, r := x / 16, x % 16;
    assert x / 2 == 8 * q + r / 2 && x / 4 == 4 * q + r / 4 && x / 8 == 2 * q + r / 8;
    Unrolled(x, x / 2, x / 4, x / 8);
  }

  lemma {:induction false} Unrolled(x: nat, x2: nat, x4: nat, x8: nat)
    requires x2 == x / 2 && x4 == x2 / 2 && x8 == x4 / 2
    ensures LowBits(x, 4) == 2 * (2 * (2 * (x8 % 2) + x4 % 2) + x2 % 2) + x % 2
  {
    assert LowBits(x8, 1) == x8 % 2 && LowBits(x4, 2) == 2 * LowBits(x8, 1) + x4 % 2 && LowBits(x2, 3) == 2 * LowBits(x4, 2) + x2 % 2;
  }

  /** A number of n bits is its lowest n. */
  lemma {:induction false} AllBits(x: nat, n: nat)
    requires n <= 8 && x < [1, 2, 4, 8, 0x10, 0x20, 0x40, 0x80, 0x100][n]
    ensures LowBits(x, n) == x
  {
    if n == 0 {
    } else {
      AllBits(x / 2, n - 1);
    }
  }

  /** The mask's three kinds of byte. */
  lemma {:induction false} MaskedByte(x: u8)
    ensures BitAnd(x, 0xFF) == x && BitAnd(x, 0x0F) == x % 16 && BitAnd(x, 0xFC) == x / 4 * 4
  {
    hide BitAnd, LowBits;
    AndOnes(x, 0xFF, 8);
    AllBits(x, 8);
    AndOnes(x, 0x0F, 4);
    FourBits(x);
    AndOnes(x / 4, 0x3F, 6);
    AllBits(x / 4, 6);
    AndHalves(x, 0xFC);
    AndHalves(x / 2, 0x7E);
  }

  /** crypto_poly1305_init's masks on limbs are the standard's on bytes. */
  function ClampLimbs(l: seq<u32>): (r: seq<u32>)
    requires |l| == 4
    ensures ClampedR(r)
  {
    [l[0] % 0x1000_0000, Masked(l[1]), Masked(l[2]), Masked(l[3])]
  }

  lemma {:induction false} ClampSame(key: seq<u8>)
    requires |key| == 16
    ensures RVal(ClampLimbs(LoadLe(key))) == LeVal(Clamp(key))
  {
    ClampBytes(key);
    hide BitAnd, Clamp;
    var l, k := LoadLe(key), Clamp(key);
    FourLimbs(key);
    FourLimbs(k);
    Load4(k);
    ClampFirst(key[0], key[1], key[2], key[3]);
    ClampLimb(key[4], key[5], key[6], key[7]);
    ClampLimb(key[8], key[9], key[10], key[11]);
    ClampLimb(key[12], key[13], key[14], key[15]);
  }

  lemma {:induction false} ClampBytes(key: seq<u8>)
    requires |key| == 16
    ensures Clamp(key) == [key[0], key[1], key[2], key[3] % 16, key[4] / 4 * 4, key[5], key[6], key[7] % 16,
                           key[8] / 4 * 4, key[9], key[10], key[11] % 16, key[12] / 4 * 4, key[13], key[14], key[15] % 16]
  {
    hide BitAnd;
    forall i | 0 <= i < 16
      ensures BitAnd(key[i], 0xFF) == key[i] && BitAnd(key[i], 0x0F) == key[i] % 16 && BitAnd(key[i], 0xFC) == key[i] / 4 * 4
    {
      MaskedByte(key[i]);
    }
  }

  lemma {:induction false} FourLimbs(s: seq<u8>)
    requires |s| == 16
    ensures LoadLe(s) == [Load32(s[0], s[1], s[2], s[3]), Load32(s[4], s[5], s[6], s[7]),
                          Load32(s[8], s[9], s[10], s[11]), Load32(s[12], s[13], s[14], s[15])]
  {
    assert s[4..][4..] == s[8..] && s[8..][4..] == s[12..] && s[12..][4..] == [];
    assert LoadLe(s[12..]) == [Load32(s[12], s[13], s[14], s[15])];
    assert LoadLe(s[8..]) == [Load32(s[8], s[9], s[10], s[11])] + LoadLe(s[12..]);
    assert LoadLe(s[4..]) == [Load32(s[4], s[5], s[6], s[7])] + LoadLe(s[8..]);
  }

  lemma {:induction false} ClampFirst(a: u8, b: u8, c: u8, d: u8)
    ensures Load32(a, b, c, d) % 0x1000_0000 == Load32(a, b, c, d % 16)
  {
    var low, high := Load32(a, b, c, d % 16), d / 16;
    assert Load32(a, b, c, d) == low + 0x1000_0000 * high;
    assert low < 0x1000_0000;
  }

  lemma {:induction false} ClampLimb(a: u8, b: u8, c: u8, d: u8)
    ensures Load32(a, b, c, d) % 0x1000_0000 / 4 * 4 == Load32(a / 4 * 4, b, c, d % 16)
  {
    ClampFirst(a, b, c, d);
    var x, k := Load32(a, b, c, d % 16), a / 4 + 0x40 * b + 0x4000 * c + 0x40_0000 * (d % 16);
    assert x == k * 4 + a % 4;
    Quotient(x, 4, k, a % 4);
  }

  // ---- the context -----------------------------------------------------------------------------

  /** h, partly reduced, is the accumulator after the blocks of `done`. */
  ghost predicate Holds(h: seq<u32>, r: seq<u32>, done: seq<u8>) {
    && Bounded(h) && ClampedR(r) && |done| % 16 == 0
    && HVal(h) % P == Fold(0, done, Times(RVal(r)))
  }

  /** One more block of 1 to 16 bytes. */
  lemma {:induction false} OneMore(h: seq<u32>, r: seq<u32>, done: seq<u8>, b: seq<u8>, x: nat, y: nat)
    requires Holds(h, r, done) && 0 < |b| <= 16 && x + y == BlockNum(b)
    ensures MulMod(HVal(h) + x + y, RVal(r)) == Fold(0, done + b, Times(RVal(r)))
  {
    hide HVal, RVal, BlockNum;
    FoldAppend(0, done, b, Times(RVal(r)));
    Unreduced(HVal(h), BlockNum(b), RVal(r));
  }

  lemma {:induction false} WholeBlockNum(b: seq<u8>, l: seq<u32>)
    requires |b| == 16 && l == LoadLe(b)
    ensures |l| == 4 && RVal(l) + B4 == BlockNum(b)
  {
    Pow16();
    Load4(b);
  }

  lemma {:induction false} Landed(h: seq<u32>, h': seq<u32>, r: seq<u32>, done: seq<u8>, b: seq<u8>, x: nat)
    requires Holds(h, r, done) && |b| == 16 && x == BlockNum(b)
    requires Bounded(h') && HVal(h') % P == MulMod(HVal(h) + x, RVal(r))
    ensures Holds(h', r, done + b)
  {
    OneMore(h, r, done, b, x, 0);
  }

  /** poly_blocks on one whole block: `end` is 1. */
  method WholeBlock(h: seq<u32>, r: seq<u32>, b: seq<u8>, ghost done: seq<u8>) returns (h': seq<u32>)
    requires Holds(h, r, done) && |b| == 16
    ensures Holds(h', r, done + b)
  {
    var l := LoadLe(b);
    WholeBlockNum(b, l);
    h' := Block(h, r, l, 1);
    Landed(h, h', r, done, b, RVal(l) + B4);
  }

  /** poly_blocks on whole blocks. */
  method Blocks(h: seq<u32>, r: seq<u32>, input: seq<u8>, ghost done: seq<u8>) returns (h': seq<u32>)
    requires Holds(h, r, done) && |input| % 16 == 0
    ensures Holds(h', r, done + input)
  {
    h' := h;
    var at := 0;
    assert done + input[..0] == done;
    while at < |input|
      invariant 0 <= at <= |input| && at % 16 == 0
      invariant Holds(h', r, done + input[..at])
    {
      h' := WholeBlock(h', r, input[at..at + 16], done + input[..at]);
      assert done + input[..at] + input[at..at + 16] == done + input[..at + 16];
      at := at + 16;
    }
    assert input[..|input|] == input;
  }

  /** A last block shorter than 16 bytes: a 1, zeros, and `end` 0. */
  method ShortBlock(h: seq<u32>, r: seq<u32>, b: seq<u8>, ghost done: seq<u8>) returns (h': seq<u32>)
    requires Holds(h, r, done) && 0 < |b| < 16
    ensures Bounded(h') && HVal(h') % P == Fold(0, done + b, Times(RVal(r)))
  {
    hide HVal, Fold, LeVal, LoadLe, Pow256, MulMod;
    var padded := b + [1] + seq(15 - |b|, i => 0);
    PaddedNum(b, 15 - |b|);
    Load4(padded);
    var l := LoadLe(padded);
    OneMore(h, r, done, b, RVal(l), 0);
    h' := Block(h, r, l, 0);
  }

  lemma {:induction false} KeyParts(k: seq<u8>)
    requires |k| == 32
    ensures |LoadLe(k[16..])| == 4 && RVal(LoadLe(k[16..])) == LeVal(k[16..])
    ensures Holds([0, 0, 0, 0, 0], ClampLimbs(LoadLe(k[..16])), [])
    ensures RVal(ClampLimbs(LoadLe(k[..16]))) == LeVal(Clamp(k[..16]))
  {
    var k0, k1 := k[..16], k[16..];
    FourLimbs(k0);
    hide BitAnd, Clamp, ClampLimbs, RVal, LoadLe, Load32, Holds;
    ClampSame(k0);
    Load4(k1);
    NothingDone(ClampLimbs(LoadLe(k0)));
  }

  lemma {:induction false} NothingDone(r: seq<u32>)
    requires ClampedR(r)
    ensures Holds([0, 0, 0, 0, 0], r, [])
  {
    hide BitAnd, RVal;
  }

  class Context {
    var h: seq<u32>                   // the accumulator, partly reduced
    var r: seq<u32>
    var pad: seq<u32>
    var c: seq<u8>                    // room for a block, cIdx bytes of it waiting
    var cIdx: nat
    ghost var key: seq<u8>
    ghost var done: seq<u8>           // the bytes that have gone into h

    /** Everything given to Update so far. */
    ghost function Message(): seq<u8>
      requires cIdx <= |c|
      reads this
    {
      done + c[..cIdx]
    }

    ghost predicate Valid()
      reads this
    {
      && |key| == 32 && |c| == 16 && cIdx <= 16 && |pad| == 4
      && Holds(h, r, done)
      && RVal(r) == LeVal(Clamp(key[..16]))
      && RVal(pad) == LeVal(key[16..])
    }

    constructor (k: seq<u8>)
      requires |k| == 32
      ensures Valid() && key == k && cIdx == 0 && Message() == []
    {
      h := [0, 0, 0, 0, 0];
      r := ClampLimbs(LoadLe(k[..16]));
      pad := LoadLe(k[16..]);
      c, cIdx := seq(16, i => 0), 0;
      key, done := k, [];
      KeyParts(k);
    }

    /** Bytes of an update that go in the waiting block. */
    method Fill(m: seq<u8>)
      requires Valid() && cIdx + |m| <= 16
      modifies `c, `cIdx
      ensures Valid() && Message() == old(Message()) + m && cIdx == old(cIdx) + |m|
    {
      var i := 0;
      while i < |m|
        invariant 0 <= i <= |m| && |c| == 16 && cIdx == old(cIdx) + i
        invariant c[..cIdx] == old(c[..cIdx]) + m[..i]
      {
        c := c[cIdx := m[i]];
        cIdx := cIdx + 1;
        i := i + 1;
      }
    }

    /** A full waiting block goes in. */
    method Flush()
      requires Valid() && cIdx == 16
      modifies `h, `cIdx, `done
      ensures Valid() && cIdx == 0 && Message() == old(Message())
    {
      h := Blocks(h, r, c, done);
      done, cIdx := done + c, 0;
    }

    method Whole(m: seq<u8>)
      requires Valid() && cIdx == 0 && |m| % 16 == 0
      modifies `h, `done
      ensures Valid() && Message() == old(Message()) + m
    {
      h := Blocks(h, r, m, done);
      done := done + m;
    }

    /** The whole blocks of what is left, then the rest of it. */
    method Tail(m: seq<u8>)
      requires Valid() && cIdx == 0
      modifies `h, `done, `c, `cIdx
      ensures Valid() && cIdx < 16
      ensures Message() == old(Message()) + m
    {
      hide Holds, RVal, Clamp, LeVal;
      var whole := |m| / 16 * 16;
      if whole > 0 {
        Whole(m[..whole]);
      }
      assert Message() == old(Message()) + m[..whole];
      Fill(m[whole..]);
      assert m[..whole] + m[whole..] == m;
    }

    /** crypto_poly1305_update: however the message is split, its bytes come out in order. */
    method Update(m: seq<u8>)
      requires Valid() && cIdx < 16
      modifies `h, `done, `c, `cIdx
      ensures Valid() && cIdx < 16
      ensures Message() == old(Message()) + m
    {
      hide Holds;
      if m == [] { return; }
      var gap := if cIdx == 0 then 0 else 16 - cIdx;
      var aligned := if gap < |m| then gap else |m|;
      Fill(m[..aligned]);
      if cIdx == 16 {
        Flush();
      }
      assert m[..aligned] + m[aligned..] == m;
      if aligned < |m| {
        Tail(m[aligned..]);
      }
    }

    /** crypto_poly1305_final: the standard's tag of the key and the whole message. */
    method Final() returns (mac: seq<u8>)
      requires Valid() && cIdx < 16
      modifies `h
      ensures |mac| == 16 && LeVal(mac) == Tag(key, Message())
    {
      hide Fold, LeVal, HVal, RVal, Load32;
      assert cIdx == 0 ==> Message() == done;
      if cIdx != 0 {
        h := ShortBlock(h, r, c[..cIdx], done);
      }
      mac := AddPad(h, pad);
    }
  }

  lemma {:induction false} LowPart(h0: nat, h1: nat, h2: nat, h3: nat, c0: nat, c1: nat, c2: nat, c3: nat)
    requires c0 == 5 + h0 && c1 == c0 / B + h1 && c2 == c1 / B + h2 && c3 == c2 / B + h3
    ensures Num4(h0, h1, h2, h3) + 5 == Num4(c0 % B, c1 % B, c2 % B, c3 % B) + B4 * (c3 / B)
  {}

  lemma {:induction false} ModOnce(x: nat, low: nat, t: nat)
    requires low < B4 && t <= 5 && x + 5 == low + B4 * t && x < 5 * B4
    ensures x % P == if t < 4 then x else x - P
  {}

  /** The carry of h + 5 into bit 130 says whether to take P away. */
  lemma {:induction false} Overflow(h: seq<u32>, c0: nat, c1: nat, c2: nat, c3: nat, q: nat)
    requires Bounded(h)
    requires c0 == 5 + h[0] as nat && c1 == c0 / B + h[1] && c2 == c1 / B + h[2] && c3 == c2 / B + h[3]
    requires q == (c3 / B + h[4]) / 4
    ensures q <= 1 && HVal(h) % P == HVal(h) - q * P
  {
    var h0, h1, h2, h3, t := h[0], h[1], h[2], h[3], c3 / B + h[4];
    LowPart(h0, h1, h2, h3, c0, c1, c2, c3);
    ModOnce(HVal(h), Num4(c0 % B, c1 % B, c2 % B, c3 % B), t);
  }

  lemma {:induction false} ModB4(x: nat, y: nat, k: int)
    requires x < B4 && y == x + k * B4
    ensures x == y % B4
  {}

  lemma {:induction false} FinalSum(h: seq<u32>, pad: seq<u32>, q: nat, d0: nat, d1: nat, d2: nat, d3: nat)
    requires Bounded(h) && |pad| == 4 && q <= 1 && HVal(h) % P == HVal(h) - q * P
    requires d0 == q * 5 + (h[0] as nat + pad[0]) && d1 == d0 / B + (h[1] as nat + pad[1])
    requires d2 == d1 / B + (h[2] as nat + pad[2]) && d3 == d2 / B + (h[3] as nat + pad[3])
    ensures Num4(d0 % B, d1 % B, d2 % B, d3 % B) == (HVal(h) % P + RVal(pad)) % B4
  {
    var x := Num4(d0 % B, d1 % B, d2 % B, d3 % B);
    assert x + B4 * (d3 / B) == q * 5 + Num4(h[0], h[1], h[2], h[3]) + RVal(pad);
    ModB4(x, HVal(h) % P + RVal(pad), d3 / B + h[4] - 4 * q);
  }

  lemma {:induction false} Val4Limbs(l: seq<u32>)
    requires |l| == 4
    ensures Val(l) == RVal(l)
  {
    assert Val(l[3..]) == l[3] by { assert l[3..][1..] == []; }
    assert l[2..][1..] == l[3..] && l[1..][1..] == l[2..];
    assert Val(l[2..]) == l[2] + B * Val(l[3..]);
    assert Val(l[1..]) == l[1] + B * Val(l[2..]);
  }

  /** The end of crypto_poly1305_final: h modulo P, plus the pad, modulo 2^128. */
  method AddPad(h: seq<u32>, pad: seq<u32>) returns (mac: seq<u8>)
    requires Bounded(h) && |pad| == 4
    ensures |mac| == 16 && LeVal(mac) == (HVal(h) % P + RVal(pad)) % B4
  {
    var c0: u64 := 5 + h[0] as u64;
    var c1: u64 := c0 / B + h[1];
    var c2: u64 := c1 / B + h[2];
    var c3: u64 := c2 / B + h[3];
    var c4: u64 := c3 / B + h[4];
    Overflow(h, c0, c1, c2, c3, c4 / 4);
    var d0: u64 := c4 / 4 * 5 + (h[0] as u64 + pad[0]);
    var d1: u64 := d0 / B + (h[1] as u64 + pad[1]);
    var d2: u64 := d1 / B + (h[2] as u64 + pad[2]);
    var d3: u64 := d2 / B + (h[3] as u64 + pad[3]);
    var limbs := [d0 % B, d1 % B, d2 % B, d3 % B];
    mac := StoreLe(limbs);
    StoreLeVal(limbs);
    Val4Limbs(limbs);
    FinalSum(h, pad, c4 / 4, d0, d1, d2, d3);
  }
}
