/**
 * Multi-limb numbers as src/monocypher.c keeps them: little-endian arrays of
 * 32-bit limbs, with 64-bit carries. Every value given to a u64 is checked to
 * fit one, so the methods never wrap.
 */
module Limbs {
  import opened Arithmetic

  type u8 = x: nat | x < 0x100
  type u64 = x: nat | x < 0x1_0000_0000_0000_0000

  /** v moved up n limbs. */
  function Up(v: nat, n: nat): nat {
    if n == 0 then v else B * Up(v, n - 1)
  }

  /** The number a sequence of limbs stands for. */
  function Val(s: seq<u32>): nat {
    if s == [] then 0 else s[0] + B * Val(s[1..])
  }

  lemma {:induction false} UpSum(v: nat, w: nat, n: nat)
    ensures Up(v + w, n) == Up(v, n) + Up(w, n)
  {
    if n == 0 {
    } else {
      UpSum(v, w, n - 1);
    }
  }

  lemma {:induction false} UpUp(v: nat, m: nat, n: nat)
    ensures Up(Up(v, m), n) == Up(v, m + n)
  {
    if n == 0 {
    } else {
      UpUp(v, m, n - 1);
    }
  }

  lemma {:induction false} UpTimes(x: nat, v: nat, n: nat)
    ensures Up(x * v, n) == x * Up(v, n)
  {
    if n == 0 {
    } else {
      UpTimes(x, v, n - 1);
      var u := Up(v, n - 1);
      assert B * (x * u) == x * (B * u);
    }
  }

  lemma {:induction false} UpMonotone(v: nat, w: nat, n: nat)
    requires v < w
    ensures Up(v, n) < Up(w, n)
  {
    if n == 0 {
    } else {
      UpMonotone(v, w, n - 1);
    }
  }

  lemma {:induction false} ValConcat(s: seq<u32>, t: seq<u32>)
    ensures Val(s + t) == Val(s) + Up(Val(t), |s|)
  {
    if s == [] {
      assert s + t == t;
    } else {
      assert (s + t)[1..] == s[1..] + t;
      ValConcat(s[1..], t);
    }
  }

  lemma {:induction false} ValSnoc(s: seq<u32>, x: u32)
    ensures Val(s + [x]) == Val(s) + Up(x, |s|)
  {
    ValConcat(s, [x]);
    assert [x][1..] == [];
    assert Val([x]) == x;
  }

  /** Splitting a number at limb k. */
  lemma {:induction false} ValSplit(s: seq<u32>, k: nat)
    requires k <= |s|
    ensures Val(s) == Val(s[..k]) + Up(Val(s[k..]), k)
  {
    assert s == s[..k] + s[k..];
    ValConcat(s[..k], s[k..]);
  }

  lemma {:induction false} ValTake(s: seq<u32>, k: nat)
    requires k < |s|
    ensures Val(s[..k + 1]) == Val(s[..k]) + Up(s[k], k)
  {
    assert s[..k + 1] == s[..k] + [s[k]];
    ValSnoc(s[..k], s[k]);
  }

  lemma {:induction false} ValBound(s: seq<u32>)
    ensures Val(s) < Up(1, |s|)
  {
    if s == [] {
    } else {
      ValBound(s[1..]);
    }
  }

  // ---- one row of a product ------------------------------------------------------

  lemma {:induction false} MulLe(a: nat, b: nat, m: nat)
    requires b <= m
    ensures a * b <= a * m
  {
    assert a * m == a * b + a * (m - b);
  }

  /** a*b + c + d of limbs fits 64 bits. */
  lemma {:induction false} ProductFits(a: u32, b: u32, c: u32, d: u32)
    ensures a * b + c + d < B * B
  {
    MulLe(a, b, B - 1);
  }

  /** One limb's sum, low half kept and high half carried, n limbs up. */
  lemma {:induction false} CarryUp(carry: nat, limb: nat, product: nat, low: nat, carry': nat, n: nat)
    requires carry + limb + product == low + B * carry'
    ensures Up(low, n) + Up(carry', n + 1) == Up(carry, n) + Up(limb, n) + Up(product, n)
  {
    UpSum(low, B * carry', n);
    UpUp(carry', 1, n);
    assert Up(carry', 1) == B * carry' by { assert Up(carry', 0) == carry'; }
    UpSum(carry + limb, product, n);
    UpSum(carry, limb, n);
  }

  lemma {:induction false} TimesSum(x: nat, v: nat, w: nat)
    ensures x * (v + w) == x * v + x * w
  {}

  /**
   * The inner loop of multiply and mod_l: x times the first n limbs of b, added
   * to n limbs of p from `at` on.
   */
  method MulRow(p: array<u32>, at: nat, x: u32, b: seq<u32>, n: nat) returns (carry: u32)
    requires at + n <= p.Length && n <= |b|
    modifies p
    ensures forall k :: 0 <= k < p.Length && !(at <= k < at + n) ==> p[k] == old(p[k])
    ensures Val(p[at..at + n]) + Up(carry, n) == Val(old(p[at..at + n])) + x * Val(b[..n])
  {
    assert Val(p[at..at]) == 0 && Val(b[..0]) == 0 && Up(0, 0) == 0;
    hide Val, Up;
    ghost var p0 := p[at..at + n];
    assert p0[..0] == b[..0] == p[at..at];
    carry := 0;
    var j := 0;
    while j < n
      invariant 0 <= j <= n
      invariant forall k :: 0 <= k < p.Length && !(at <= k < at + j) ==> p[k] == old(p[k])
      invariant Val(p[at..at + j]) + Up(carry, j) == Val(p0[..j]) + x * Val(b[..j])
    {
      var low, high := MulAdd(x, b[j], carry, p[at + j]);
      RowStep(p0, b, j, x, carry, low, high);
      ghost var w := p[at..at + j];
      p[at + j] := low;
      carry := high;
      assert p[at..at + j + 1] == w + [low];
      ValSnoc(w, low);
      j := j + 1;
    }
    assert p0[..n] == p0;
  }

  /** A product of limbs and two limbs more, in 64 bits: its low half and its high one. */
  method MulAdd(x: u32, y: u32, c: u32, d: u32) returns (low: u32, high: u32)
    ensures low + B * high == c + d + x * y
  {
    ProductFits(x, y, c, d);
    var sum: u64 := c + (d + x * y);
    low, high := sum % B, sum / B;
  }

  lemma {:induction false} RowStep(p: seq<u32>, b: seq<u32>, j: nat, x: u32, carry: u32, low: u32, carry': u32)
    requires j < |p| && j < |b| && carry + p[j] + x * b[j] == low + B * carry'
    ensures Up(low, j) + Up(carry', j + 1) + Val(p[..j]) + x * Val(b[..j])
            == Up(carry, j) + Val(p[..j + 1]) + x * Val(b[..j + 1])
  {
    ValTake(p, j);
    ValTake(b, j);
    CarryUp(carry, p[j], x * b[j], low, carry', j);
    UpTimes(x, b[j], j);
    TimesSum(x, Val(b[..j]), Up(b[j], j));
  }

  /** A row put back in a number: its carry goes in the limb above it. */
  lemma {:induction false} RowPlaced(lo: seq<u32>, row: seq<u32>, row': seq<u32>, carry: u32, added: nat)
    requires |row'| == |row|
    requires Val(row') + Up(carry, |row|) == Val(row) + added
    ensures Val(lo + row' + [carry]) == Val(lo + row) + Up(added, |lo|)
  {
    hide Val, Up;
    ValConcat(lo, row);
    ValConcat(lo, row');
    ValSnoc(lo + row', carry);
    UpUp(carry, |row|, |lo|);
    UpSum(Val(row'), Up(carry, |row|), |lo|);
    UpSum(Val(row), added, |lo|);
  }

  /** A turn of the outer loop: x * b goes in at limb i, and the carry in the limb after. */
  method MulLimb(p: array<u32>, i: nat, x: u32, b: seq<u32>)
    requires i + |b| < p.Length
    modifies p
    ensures forall k :: 0 <= k < p.Length && !(i <= k <= i + |b|) ==> p[k] == old(p[k])
    ensures Val(p[..i + |b| + 1]) == Val(old(p[..i + |b|])) + Up(x * Val(b), i)
  {
    var n := |b|;
    ghost var lo, row := p[..i], p[i..i + n];
    assert p[..i + n] == lo + row;
    var carry := MulRow(p, i, x, b, n);
    assert b[..n] == b;
    p[i + n] := carry;
    assert p[..i + n + 1] == lo + p[i..i + n] + [carry];
    RowPlaced(lo, row, p[i..i + n], carry, x * Val(b));
  }

  /** p := a * b + p, where only the low |b| limbs of p count to begin with. */
  method Multiply(p: array<u32>, a: seq<u32>, b: seq<u32>)
    requires p.Length >= |a| + |b|
    modifies p
    ensures Val(p[..|a| + |b|]) == Val(a) * Val(b) + Val(old(p[..|b|]))
    ensures forall k :: |a| + |b| <= k < p.Length ==> p[k] == old(p[k])
  {
    var i := 0;
    while i < |a|
      invariant 0 <= i <= |a|
      invariant Val(p[..i + |b|]) == Val(a[..i]) * Val(b) + Val(old(p[..|b|]))
      invariant forall k :: |a| + |b| <= k < p.Length ==> p[k] == old(p[k])
    {
      MulLimb(p, i, a[i], b);
      TakeTimes(a, i, Val(b));
      i := i + 1;
    }
    assert a[..|a|] == a;
  }

  lemma {:induction false} TakeTimes(a: seq<u32>, i: nat, v: nat)
    requires i < |a|
    ensures Val(a[..i + 1]) * v == Val(a[..i]) * v + Up(a[i] * v, i)
  {
    ValTake(a, i);
    UpTimes(v, a[i], i);
    TimesSum(v, Val(a[..i]), Up(a[i], i));
    assert a[i] * v == v * a[i];
  }

  // ---- bytes ------------------------------------------------------------------------

  /** The number a sequence of bytes stands for, little-endian. */
  function LeVal(s: seq<u8>): nat {
    if s == [] then 0 else s[0] + 0x100 * LeVal(s[1..])
  }

  function Load32(a: nat, b: nat, c: nat, d: nat): nat {
    a + 0x100 * b + 0x1_0000 * c + 0x100_0000 * d
  }

  /** load32_le_buf */
  function LoadLe(s: seq<u8>): (limbs: seq<u32>)
    requires |s| % 4 == 0
    ensures |limbs| == |s| / 4
  {
    if s == [] then []
    else [Load32(s[0], s[1], s[2], s[3])] + LoadLe(s[4..])
  }

  function Store32(x: u32): (s: seq<u8>)
    ensures |s| == 4 && Load32(s[0], s[1], s[2], s[3]) == x
  {
    var x1 := x / 0x100;
    var x2 := x1 / 0x100;
    [x % 0x100, x1 % 0x100, x2 % 0x100, x2 / 0x100]
  }

  /** store32_le_buf */
  function StoreLe(limbs: seq<u32>): (s: seq<u8>)
    ensures |s| == 4 * |limbs|
  {
    if limbs == [] then []
    else
      Store32(limbs[0]) + StoreLe(limbs[1..])
  }

  lemma {:induction false} LeVal4(s: seq<u8>)
    requires |s| >= 4
    ensures LeVal(s) == Load32(s[0], s[1], s[2], s[3]) + B * LeVal(s[4..])
  {
    assert s[1..][1..] == s[2..] && s[2..][1..] == s[3..] && s[3..][1..] == s[4..];
    assert LeVal(s[3..]) == s[3] + 0x100 * LeVal(s[4..]);
    assert LeVal(s[2..]) == s[2] + 0x100 * LeVal(s[3..]);
    assert LeVal(s[1..]) == s[1] + 0x100 * LeVal(s[2..]);
  }

  lemma {:induction false} LoadLeVal(s: seq<u8>)
    requires |s| % 4 == 0
    ensures Val(LoadLe(s)) == LeVal(s)
  {
    if s == [] {
    } else {
      LoadLeVal(s[4..]);
      LeVal4(s);
      assert LoadLe(s)[1..] == LoadLe(s[4..]);
    }
  }

  lemma {:induction false} StoreLeVal(limbs: seq<u32>)
    ensures LeVal(StoreLe(limbs)) == Val(limbs)
  {
    if limbs == [] {
    } else {
      StoreLeVal(limbs[1..]);
      var s := StoreLe(limbs);
      var w := Store32(limbs[0]);
      assert s[0] == w[0] && s[1] == w[1] && s[2] == w[2] && s[3] == w[3];
      LeVal4(s);
      assert s[4..] == StoreLe(limbs[1..]);
    }
  }

  function Pow256(n: nat): (p: nat)
    ensures p > 0
  {
    if n == 0 then 1 else 0x100 * Pow256(n - 1)
  }
}
