/**
 * Reduction modulo L, the order of Ed25519's base point (section 5.1 of RFC
 * 8032), as src/monocypher.c does it: a Barrett quotient off by at most one,
 * then one conditional subtraction.
 */
module ModL {
  import opened Arithmetic
  import opened Limbs

  const LIMBS_L: seq<u32> := [
    0x5cf5d3ed, 0x5812631a, 0xa2f79cd6, 0x14def9de,
    0x00000000, 0x00000000, 0x00000000, 0x10000000]

  /** floor(2^512 / L) */
  const LIMBS_R: seq<u32> := LOW_R + [0xf]

  const LOW_R: seq<u32> := [
    0x0a2c131b, 0xed9ce5a3, 0x086329a7, 0x2106215d,
    0xffffffeb, 0xffffffff, 0xffffffff, 0xffffffff]

  const L: nat := 0x1000000000000000000000000000000014def9dea2f79cd65812631a5cf5d3ed
  const R: nat := 0xfffffffffffffffffffffffffffffffeb2106215d086329a7ed9ce5a30a2c131b

  lemma {:induction false} TableL()
    ensures Val(LIMBS_L) == L
  {
    hide Val;
    Val8(LIMBS_L);
  }

  lemma {:induction false} Val8(s: seq<u32>)
    requires |s| == 8
    ensures Val(s) == s[0] + B * (s[1] + B * (s[2] + B * (s[3] + B * (s[4] + B * (s[5] + B * (s[6] + B * s[7]))))))
  {
    Val4(s[4..]);
    Val4(s[..4]);
    ValSplit(s, 4);
    Up4(Val(s[4..]));
  }

  lemma {:induction false} Val4(s: seq<u32>)
    requires |s| == 4
    ensures Val(s) == s[0] + B * (s[1] + B * (s[2] + B * s[3]))
  {
    assert s[1..][1..] == s[2..] && s[2..][1..] == s[3..] && s[3..][1..] == [];
    assert Val(s[3..]) == s[3];
    assert Val(s[2..]) == s[2] + B * Val(s[3..]);
    assert Val(s[1..]) == s[1] + B * Val(s[2..]);
  }

  lemma {:induction false} Up4(v: nat)
    ensures Up(v, 4) == B * B * B * B * v
  {
    assert Up(v, 1) == B * v;
    assert Up(v, 2) == B * (B * v);
    assert Up(v, 3) == B * (B * (B * v));
  }

  lemma {:induction false} Up8(v: nat)
    ensures Up(v, 8) == 0x1_0000_0000_0000_0000_0000_0000_0000_0000_0000_0000_0000_0000_0000_0000_0000_0000 * v
  {
    UpUp(v, 4, 4);
    Up4(v);
    Up4(Up(v, 4));
  }

  lemma {:induction false} TableR()
    ensures Val(LIMBS_R) == R
  {
    hide Val, Up;
    ValSnoc(LOW_R, 0xf);
    Val8(LOW_R);
    Up8(0xf);
  }

  // ---- the quotient -----------------------------------------------------------------

  const W512: nat := W256 * W256
  const W256: nat := 0x1_0000_0000_0000_0000_0000_0000_0000_0000_0000_0000_0000_0000_0000_0000_0000_0000

  /** R is the reciprocal of L it should be. */
  lemma {:induction false} Reciprocal()
    ensures R * L <= W512 < R * L + L
    ensures 2 * L < W256
  {}

  /**
   * Barrett's quotient is off by at most one: with r = floor(w / l) and
   * q = floor(x * r / w), x - q * l is between 0 and 2 * l for every x below w.
   */
  lemma {:induction false} Barrett(x: nat, q: nat, r: nat, l: nat, w: nat)
    requires r * l <= w < r * l + l
    requires x < w
    requires q * w <= x * r < q * w + w
    ensures q * l <= x < q * l + 2 * l
  {
    var t, s := w - r * l, x * r - q * w;
    Cross(x, q, r, l, w);
    var low, high := l * s, x * t;
    Apart(l, s, x, t, w);
    var d, n := x - q * l, 2 * l;
    assert d * w == low + high;
    assert 0 <= d < n by { Between(d, w, low + high, n); }
  }

  /** Both terms of Cross are less than l * w. */
  lemma {:induction false} Apart(l: nat, s: nat, x: nat, t: nat, w: nat)
    requires s < w && x < w && t < l
    ensures 0 <= l * s + x * t < 2 * l * w
  {
    MulLe(l, s, w);
    MulLe(x, t, l);
    MulLe(l, x, w - 1);
  }

  lemma {:induction false} Cross(x: int, q: int, r: int, l: int, w: int)
    ensures (x - q * l) * w == l * (x * r - q * w) + x * (w - r * l)
  {
    assert l * (x * r - q * w) == x * (r * l) - (q * l) * w;
  }

  /** A product of at least 0 and less than n times a positive factor has its other factor there. */
  lemma {:induction false} Between(d: int, w: nat, product: nat, n: nat)
    requires w > 0 && d * w == product < n * w
    ensures 0 <= d < n
  {
    if d >= n { MulLe(w, n, d); }
  }

  // ---- the rest of mod_l -------------------------------------------------------------

  lemma {:induction false} ValZero(s: seq<u32>)
    requires forall k :: 0 <= k < |s| ==> s[k] == 0
    ensures Val(s) == 0
  {
    if s == [] {
    } else {
      ValZero(s[1..]);
    }
  }

  lemma {:induction false} Up16(v: nat)
    ensures Up(v, 16) == W512 * v
  {
    UpUp(v, 8, 8);
    Up8(v);
    Up8(Up(v, 8));
  }

  /** mod_l's second product: the low 256 bits of q * L, row by row; `over` is what is dropped. */
  method LowProduct(xr: array<u32>, l: seq<u32>) returns (ghost over: nat)
    requires xr.Length == 25 && |l| == 8 && Val(l) == L
    requires forall k :: 0 <= k < 8 ==> xr[k] == 0
    modifies xr
    ensures forall k :: 8 <= k < 25 ==> xr[k] == old(xr[k])
    ensures Val(xr[..|l|]) + Up(over, |l|) == Val(old(xr[16..24])) * L
  {
    assert Val(xr[16..24][..0]) == 0;
    hide Up;
    ghost var q := xr[16..24];
    ValZero(xr[..|l|]);
    over := 0;
    assert Up(0, |l|) == 0 by { UpTimes(0, 0, |l|); }
    var i := 0;
    while i < |l|
      invariant 0 <= i <= |l|
      invariant forall k :: 8 <= k < 25 ==> xr[k] == old(xr[k])
      invariant Val(xr[..|l|]) + Up(over, |l|) == Val(q[..i]) * L
    {
      assert xr[i + 16] == q[i];
      ghost var lost := LowRow(xr, i, xr[i + 16], l);
      TakeTimes(q, i, L);
      UpSum(over, lost, |l|);
      over := over + lost;
      i := i + 1;
    }
    assert q[..|l|] == q;
  }

  method LowRow(xr: array<u32>, i: nat, x: u32, l: seq<u32>) returns (ghost lost: nat)
    requires xr.Length == 25 && i < |l| == 8 && Val(l) == L
    modifies xr
    ensures forall k :: 8 <= k < 25 ==> xr[k] == old(xr[k])
    ensures Val(xr[..|l|]) + Up(lost, |l|) == Val(old(xr[..|l|])) + Up(x * L, i)
  {
    ghost var lo, row := xr[..i], xr[i..|l|];
    assert xr[..|l|] == lo + row;
    var carry := MulRow(xr, i, x, l, |l| - i);
    assert xr[..|l|] == lo + xr[i..|l|];
    lost := CutRow(lo, row, xr[i..|l|], carry, x, l);
  }

  /** A row cut off at 8 limbs: what it loses is a multiple of 2^256. */
  lemma {:induction false} CutRow(lo: seq<u32>, row: seq<u32>, row': seq<u32>, carry: u32, x: u32, l: seq<u32>)
    returns (lost: nat)
    requires |lo| + |row| == |l| && |row'| == |row| && Val(l) == L
    requires Val(row') + Up(carry, |row|) == Val(row) + x * Val(l[..|row|])
    ensures Val(lo + row') + Up(lost, |l|) == Val(lo + row) + Up(x * L, |lo|)
  {
    hide Val, Up;
    lost := DroppedTop(row, row', carry, x, l);
    ValConcat(lo, row);
    ValConcat(lo, row');
    UpUp(lost, |row|, |lo|);
    UpSum(Val(row'), Up(lost, |row|), |lo|);
    UpSum(Val(row), x * L, |lo|);
  }

  lemma {:induction false} DroppedTop(row: seq<u32>, row': seq<u32>, carry: u32, x: u32, l: seq<u32>)
    returns (lost: nat)
    requires |row'| == |row| <= |l| && Val(l) == L
    requires Val(row') + Up(carry, |row|) == Val(row) + x * Val(l[..|row|])
    ensures Val(row') + Up(lost, |row|) == Val(row) + x * L
  {
    hide Val, Up;
    var n, hi := |row|, Val(l[|row|..]);
    MulLe(x, 0, hi);
    lost := carry + x * hi;
    ValSplit(l, n);
    TimesSum(x, Val(l[..n]), Up(hi, n));
    UpTimes(x, hi, n);
    UpSum(carry, x * hi, n);
  }

  /** xr = x - xr, 256 bits, in two's complement; the last carry is dropped. */
  method SubtractFrom(xr: array<u32>, x: seq<u32>) returns (ghost carry: nat)
    requires xr.Length >= 8 && |x| >= 8
    modifies xr
    ensures forall k :: 8 <= k < xr.Length ==> xr[k] == old(xr[k])
    ensures Val(xr[..8]) + Up(carry, 8) + Val(old(xr[..8])) == Val(x[..8]) + Up(1, 8)
  {
    ghost var y := xr[..8];
    var sum: u64 := 1;
    var i := 0;
    while i < 8
      invariant 0 <= i <= 8 && sum <= 1
      invariant forall k :: i <= k < xr.Length ==> xr[k] == old(xr[k])
      invariant Val(xr[..i]) + Up(sum, i) + Val(y[..i]) == Val(x[..i]) + Up(1, i)
    {
      ghost var w, c := xr[..i], sum;
      sum := sum + x[i] + (B - 1 - xr[i]);
      NotStep(w, x, y, i, c, sum);
      xr[i] := sum % B;
      assert xr[..i + 1] == w + [sum % B];
      sum := sum / B;
      i := i + 1;
    }
    carry := sum;
    assert y[..8] == y;
  }

  /** Adding the complement of a limb of y takes it away and borrows from the limb above. */
  lemma {:induction false} NotStep(w: seq<u32>, x: seq<u32>, y: seq<u32>, i: nat, c: nat, sum: nat)
    requires i < |x| && i < |y| && |w| == i && c <= 1
    requires Val(w) + Up(c, i) + Val(y[..i]) == Val(x[..i]) + Up(1, i)
    requires sum == c + x[i] + (B - 1 - y[i])
    ensures Val(w + [sum % B]) + Up(sum / B, i + 1) + Val(y[..i + 1]) == Val(x[..i + 1]) + Up(1, i + 1)
  {
    hide Val, Up;
    ValTake(x, i);
    ValTake(y, i);
    ValSnoc(w, sum % B);
    NotLimb(c, x[i], y[i], sum % B, sum / B, i);
  }

  lemma {:induction false} NotLimb(c: nat, x: u32, y: u32, low: nat, carry: nat, i: nat)
    requires c + x + (B - 1 - y) == low + B * carry
    ensures Up(low, i) + Up(carry, i + 1) + Up(y, i) + Up(1, i) == Up(c, i) + Up(x, i) + Up(1, i + 1)
  {
    assert Up(1, 1) == B by { assert Up(1, 0) == 1; }
    hide Up;
    CarryUp(c, x, B - 1 - y, low, carry, i);
    UpSum(B - 1 - y, y, i);
    UpSum(B - 1, 1, i);
    UpUp(1, 1, i);
  }

  /** Whether x >= L: the carry out of x - L. */
  method IsAboveL(x: seq<u32>, l: seq<u32>) returns (above: bool)
    requires |x| == 8 && |l| == 8 && Val(l) == L
    ensures above == (Val(x) >= L)
  {
    assert Val([]) == 0 && Val(l[..0]) == 0 && Val(x[..0]) == 0 && Up(1, 0) == 1;
    hide Val, Up;
    var carry: u64 := 1;
    ghost var w: seq<u32> := [];
    var i := 0;
    while i < 8
      invariant 0 <= i <= 8 && |w| == i && carry <= 1
      invariant Val(w) + Up(carry, i) + Val(l[..i]) == Val(x[..i]) + Up(1, i)
    {
      var sum: u64 := carry + x[i] + (B - 1 - l[i]);
      NotStep(w, x, l, i, carry, sum);
      w, carry := w + [sum % B], sum / B;
      i := i + 1;
    }
    assert x[..8] == x && l[..8] == l;
    ValBound(w);
    above := carry == 1;
    CarrySays(Val(w), carry, L, Val(x));
  }

  lemma {:induction false} CarrySays(v: nat, carry: nat, l: nat, x: nat)
    requires carry <= 1 && v < Up(1, 8) && v + Up(carry, 8) + l == x + Up(1, 8)
    ensures carry == 1 <==> x >= l
  {
    assert Up(0, 8) == 0 by { Up8(0); }
  }

  /** x if x < L, else x - L, in place. */
  method RemoveL(x: array<u32>, l: seq<u32>)
    requires x.Length >= 8 && |l| == 8 && Val(l) == L
    modifies x
    ensures forall k :: 8 <= k < x.Length ==> x[k] == old(x[k])
    ensures Val(old(x[..8])) < L ==> Val(x[..8]) == Val(old(x[..8]))
    ensures Val(old(x[..8])) >= L ==> Val(x[..8]) == Val(old(x[..8])) - L
  {
    assert Val([]) == 0 && Up(1, 0) == 1;
    hide Val, Up;
    ghost var x0 := x[..8];
    var above := IsAboveL(x[..8], l);
    var carry: u64 := if above then 1 else 0;
    var i := 0;
    assert x[..0] == x0[..0] == l[..0] == [];
    while i < 8
      invariant 0 <= i <= 8 && carry <= 1
      invariant forall k :: i <= k < x.Length ==> x[k] == old(x[k])
      invariant !above ==> carry == 0 && x[..i] == x0[..i]
      invariant above ==> Val(x[..i]) + Up(carry, i) + Val(l[..i]) == Val(x0[..i]) + Up(1, i)
    {
      ghost var w := x[..i];
      var masked: u32 := if above then B - 1 - l[i] else 0;
      var sum: u64 := carry + x[i] + masked;
      if above { NotStep(w, x0, l, i, carry, sum); }
      x[i] := sum % B;
      assert x[..i + 1] == w + [sum % B];
      carry := sum / B;
      i := i + 1;
    }
    assert x0[..8] == x0 && l[..8] == l;
    if above {
      ValBound(x[..8]);
      ValBound(x0);
      CarryIsOne(Val(x[..8]), carry, Val(x0));
    }
  }

  lemma {:induction false} CarryIsOne(r: nat, carry: nat, x: nat)
    requires carry <= 1 && r + Up(carry, 8) + L == x + Up(1, 8)
    requires x >= L && r < Up(1, 8)
    ensures r == x - L
  {
    Up8(0);
    Up8(carry);
    Up8(1);
  }

  /** mod_l, on limbs: the remainder modulo L of any 512-bit number. */
  method ModLimbs(x: seq<u32>) returns (reduced: seq<u32>)
    requires |x| == 16
    ensures |reduced| == 8 && Val(reduced) == Val(x) % L
  {
    hide Val, Up;
    var xr := new u32[25](_ => 0);
    ValZero(xr[..16]);
    Multiply(xr, LIMBS_R, x);
    ghost var q := xr[16..25];
    TableR();
    TableL();
    QuotientOf(xr[..25], x);
    ClearLow(xr);
    assert xr[16..24] == q[..8];
    ghost var over := LowProduct(xr, LIMBS_L);
    ghost var p := xr[..8];
    ghost var carry := SubtractFrom(xr, x);
    Difference(xr[..8], p, q, x, over, carry);
    RemoveL(xr, LIMBS_L);
    reduced := xr[..8];
    Remainder(Val(x), if Val(xr[..8]) == Val(x) - Val(q) * L then Val(q) else Val(q) + 1, Val(reduced), L);
  }

  method ClearLow(xr: array<u32>)
    requires xr.Length == 25
    modifies xr
    ensures forall k :: 0 <= k < 8 ==> xr[k] == 0
    ensures xr[16..25] == old(xr[16..25])
  {
    for k := 0 to 8
      invariant forall j :: 0 <= j < k ==> xr[j] == 0
      invariant forall j :: 8 <= j < 25 ==> xr[j] == old(xr[j])
    {
      xr[k] := 0;
    }
  }

  /** The limbs above the n-th of x * r are floor(x * r / w), where w is n limbs up. */
  lemma {:induction false} HighLimbs(xr: seq<u32>, x: seq<u32>, r: nat, l: nat, n: nat)
    requires n == |x| <= |xr| && Val(xr) == r * Val(x)
    requires r * l <= Up(1, n) < r * l + l
    ensures Val(xr[n..]) * l <= Val(x) < Val(xr[n..]) * l + 2 * l
  {
    hide Val, Up;
    var q, w := Val(xr[n..]), Up(1, n);
    ValBound(xr[..n]);
    ValBound(x);
    ValSplit(xr, n);
    UpTimes(q, 1, n);
    assert Val(xr) == Val(xr[..n]) + q * w;
    Barrett(Val(x), q, r, l, w);
  }

  /** The limbs above the 16th of x * R are the quotient by L, or one less. */
  lemma {:induction false} QuotientOf(xr: seq<u32>, x: seq<u32>)
    requires |xr| == 25 && |x| == 16 && Val(xr) == R * Val(x)
    ensures Val(xr[16..]) * L <= Val(x) < Val(xr[16..]) * L + 2 * L
  {
    hide Val, Up;
    Reciprocal();
    Up16(1);
    HighLimbs(xr, x, R, L, 16);
  }

  /** What the 256-bit subtraction leaves is x - q * L itself. */
  lemma {:induction false} Difference(d: seq<u32>, p: seq<u32>, q: seq<u32>, x: seq<u32>, over: nat, carry: nat)
    requires |d| == 8 && |p| == 8 && |q| == 9 && |x| == 16
    requires Val(p) + Up(over, 8) == Val(q[..8]) * L
    requires Val(d) + Up(carry, 8) + Val(p) == Val(x[..8]) + Up(1, 8)
    requires Val(q) * L <= Val(x) < Val(q) * L + 2 * L
    ensures Val(d) == Val(x) - Val(q) * L
  {
    Reciprocal();
    ValBound(d);
    Up8(1);
    Up8(over);
    Up8(carry);
    ValSplit(x, 8);
    Up8(Val(x[8..]));
    ValSplit(q, 8);
    Up8(Val(q[8..]));
    var hi := Val(q[8..]);
    assert Val(q) * L == Val(q[..8]) * L + W256 * (hi * L);
    SameMod(Val(d), Val(x) - Val(q) * L, carry - 1 + Val(x[8..]) - over - hi * L, W256);
  }

  lemma {:induction false} SameMod(a: nat, b: nat, m: int, w: nat)
    requires a < w && b < w && b == a + m * w
    ensures a == b
  {
    if m > 0 { MulLe(w, 1, m); }
    if m < 0 { MulLe(w, 1, -m); }
  }

  lemma {:induction false} Remainder(x: nat, k: nat, r: nat, l: nat)
    requires x == k * l + r && r < l
    ensures x % l == r
  {
    Quotient(x, l, k, r);
  }

  // ---- on bytes, as Ed25519 uses it ----------------------------------------------------

  /** crypto_eddsa_reduce: a 512-bit little-endian number modulo L. */
  method EddsaReduce(expanded: seq<u8>) returns (reduced: seq<u8>)
    requires |expanded| == 64
    ensures |reduced| == 32 && LeVal(reduced) == LeVal(expanded) % L
  {
    hide Val, LeVal, LoadLe, StoreLe, Up;
    var x := LoadLe(expanded);
    LoadLeVal(expanded);
    var r := ModLimbs(x);
    reduced := StoreLe(r);
    StoreLeVal(r);
  }

  /** crypto_eddsa_mul_add: a * b + c modulo L. */
  method EddsaMulAdd(a: seq<u8>, b: seq<u8>, c: seq<u8>) returns (r: seq<u8>)
    requires |a| == |b| == |c| == 32
    ensures |r| == 32 && LeVal(r) == (LeVal(a) * LeVal(b) + LeVal(c)) % L
  {
    hide Val, LeVal, LoadLe, StoreLe, Up;
    LoadLeVal(a);
    LoadLeVal(b);
    LoadLeVal(c);
    var la, lb, lc := LoadLe(a), LoadLe(b), LoadLe(c);
    var p := new u32[16](i => 0);
    for i := 0 to 8
      invariant forall k :: 0 <= k < i ==> p[k] == lc[k]
    {
      p[i] := lc[i];
    }
    assert p[..8] == lc;
    Multiply(p, la, lb);
    assert p[..16] == p[..];
    var limbs := ModLimbs(p[..]);
    r := StoreLe(limbs);
    StoreLeVal(limbs);
  }
}
