/**
 * What each instruction leaves on the stacks, in the registers and in memory
 * (src/vm.c), told by the items of the stacks and by the instruction's bits.
 */
module MicroOps {
  import opened Arithmetic
  import opened Slices
  import opened Vm
  import opened Code

  type Wides = (nat, Cpu) -> Cpu

  // ---- the stacks as items ------------------------------------------------------------------

  /** The cell i places below a stack's top cell, going round. */
  function CellBelow(capacity: nat, p: nat, i: nat): int {
    if i <= p then p - i else p + capacity - i
  }

  /** Item i of the data stack: 0 is T, the others are in cells. */
  function Item(bd: Board, s: State, i: nat): u32
    requires s.dsp < bd.capacity && i <= bd.capacity
  {
    if i == 0 then s.t else s.ds(CellBelow(bd.capacity, s.dsp, i - 1))
  }

  function RItem(bd: Board, k: Rets, i: nat): u32
    requires k.rsp < bd.capacity && i <= bd.capacity
  {
    if i == 0 then k.r else k.rs(CellBelow(bd.capacity, k.rsp, i - 1))
  }

  predicate Sane(bd: Board, s: State) {
    bd.Valid() && s.dsp < bd.capacity && s.ret.rsp < bd.capacity && s.ior == 0
  }

  predicate InStacks(bd: Board, s: State) {
    bd.Valid() && s.dsp < bd.capacity && s.ret.rsp < bd.capacity
  }

  /** The top `take` items are replaced by `put` (its first on top), and the others, as far down as there are cells, stay. */
  ghost predicate Leaves(bd: Board, s: State, s': State, take: nat, put: seq<u32>)
    requires InStacks(bd, s) && InStacks(bd, s') && |put| <= bd.capacity
  {
    && (forall i :: 0 <= i < |put| ==> Item(bd, s', i) == put[i])
    && (forall i :: |put| <= i <= bd.capacity && i - |put| + take <= bd.capacity ==>
          Item(bd, s', i) == Item(bd, s, i - |put| + take))
  }

  ghost predicate RLeaves(bd: Board, k: Rets, k': Rets, take: nat, put: seq<u32>)
    requires bd.Valid() && k.rsp < bd.capacity && k'.rsp < bd.capacity && |put| <= bd.capacity
  {
    && (forall i :: 0 <= i < |put| ==> RItem(bd, k', i) == put[i])
    && (forall i :: |put| <= i <= bd.capacity && i - |put| + take <= bd.capacity ==>
          RItem(bd, k', i) == RItem(bd, k, i - |put| + take))
  }

  lemma {:induction false} UpOne(p: nat, capacity: nat)
    requires p < capacity
    ensures (p + 1) % capacity == if p + 1 == capacity then 0 else p + 1
  {
    if p + 1 == capacity { Quotient(p + 1, capacity, 1, 0); } else { Quotient(p + 1, capacity, 0, p + 1); }
  }

  lemma {:induction false} DownOne(p: nat, capacity: nat)
    requires p < capacity
    ensures (p + capacity - 1) % capacity == if p == 0 then capacity - 1 else p - 1
  {
    if p == 0 { Quotient(capacity - 1, capacity, 0, capacity - 1); } else { Quotient(p + capacity - 1, capacity, 1, p - 1); }
  }

  lemma {:induction false} PushLeaves(bd: Board, s: State, x: u32)
    requires InStacks(bd, s)
    ensures InStacks(bd, Pushed(bd, s, x)) && Leaves(bd, s, Pushed(bd, s, x), 0, [x])
  {
    UpOne(s.dsp, bd.capacity);
  }

  lemma {:induction false} DropLeaves(bd: Board, s: State)
    requires InStacks(bd, s)
    ensures InStacks(bd, DDrop(bd, s)) && Leaves(bd, s, DDrop(bd, s), 1, [])
  {
    DownOne(s.dsp, bd.capacity);
  }

  lemma {:induction false} RPushLeaves(bd: Board, k: Rets, x: u32)
    requires bd.Valid() && k.rsp < bd.capacity
    ensures RDup(bd, k).rsp < bd.capacity && RLeaves(bd, k, RDup(bd, k).(r := x), 0, [x])
  {
    UpOne(k.rsp, bd.capacity);
  }

  lemma {:induction false} RDropLeaves(bd: Board, k: Rets)
    requires bd.Valid() && k.rsp < bd.capacity
    ensures RDrop(bd, k).rsp < bd.capacity && RLeaves(bd, k, RDrop(bd, k), 1, [])
  {
    DownOne(k.rsp, bd.capacity);
  }

  // ---- an instruction of one micro-op -----------------------------------------------------------

  /** The machine after an instruction. */
  function After(bd: Board, wide: Wides, inst: nat, m: Cpu): Cpu
    requires bd.Valid()
  {
    Exec(Effects(bd, wide), inst, m)
  }

  /** The group with this micro-op first and nops after it. */
  function Lone(op: nat): nat { 0x8000 + op * 0x200 }

  lemma {:induction false} Alone(bd: Board, wide: Wides, op: nat, m: Cpu)
    requires bd.Valid() && m.s.ior == 0 && op < 32
    ensures After(bd, wide, Lone(op), m) == m.(s := Uop(bd, op, m.s))
  {
    GroupRuns(bd, wide, op, 0, 0, false, m);
    var f, s := Uops(bd), m.s;
    assert [op, 0, 0][1..] == [0, 0] && [0, 0][1..] == [0];
    assert RunOps(f, [op, 0, 0], s) == RunOps(f, [0, 0], f(op, s));
    NopsRun(f, f(op, s));
  }

  lemma {:induction false} NopsRun(f: Meaning, s: State)
    requires forall x :: f(NOP, x) == x
    ensures RunOps(f, [0, 0], s) == s
  {
    assert [0, 0][1..] == [0] && [0][1..] == [];
    assert RunOps(f, [0], s) == s;
  }

  lemma {:induction false} GroupRuns(bd: Board, wide: Wides, x: nat, y: nat, z: nat, ret: bool, m: Cpu)
    requires bd.Valid() && m.s.ior == 0 && x < 32 && y < 32 && z < 16
    ensures var inst := 0x8000 + (if ret then 0x4000 else 0) + x * 0x200 + y * 0x10 + z;
            var m1 := if ret then m.(s := m.s.(ret := RDrop(bd, m.s.ret)), pc := m.s.ret.r) else m;
            After(bd, wide, inst, m) == m1.(s := RunOps(Uops(bd), [x, y, z], m1.s))
  {
    var inst := 0x8000 + (if ret then 0x4000 else 0) + x * 0x200 + y * 0x10 + z;
    var f := Effects(bd, wide);
    Fields(x, y, z, ret);
    assert Slots(inst) == [x, y, z] && IsGroup(inst) && (Returns(inst) <==> ret);
    hide Slots, IsGroup, Returns, Live, RDrop;
    if ret {
      RunConcat(f, [Ret], Live([x, y, z]), m);
      RunOne(f, Ret, m);
      RunLive(bd, wide, [x, y, z], f(Ret, m));
    } else {
      assert [] + Live([x, y, z]) == Live([x, y, z]);
      RunLive(bd, wide, [x, y, z], m);
    }
  }

  lemma {:induction false} Fields(x: nat, y: nat, z: nat, ret: bool)
    requires x < 32 && y < 32 && z < 16
    ensures var inst := 0x8000 + (if ret then 0x4000 else 0) + x * 0x200 + y * 0x10 + z;
            && inst / 0x200 % 32 == x && inst / 0x10 % 32 == y && inst % 16 == z
            && inst / 0x8000 % 2 == 1 && (inst / 0x4000 % 2 == 1 <==> ret)
  {
    var r := if ret then 1 else 0;
    var inst := 0x8000 + r * 0x4000 + x * 0x200 + y * 0x10 + z;
    Quotient(inst, 0x10, 0x800 + r * 0x400 + x * 0x20 + y, z);
    Quotient(inst, 0x200, 0x40 + r * 0x20 + x, y * 0x10 + z);
    Quotient(inst, 0x4000, 2 + r, x * 0x200 + y * 0x10 + z);
    Quotient(inst, 0x8000, 1, r * 0x4000 + x * 0x200 + y * 0x10 + z);
  }

  // ---- bits -----------------------------------------------------------------------------------

  function Bit(x: nat, i: nat): nat
    decreases i
  {
    if i == 0 then x % 2 else Bit(x / 2, i - 1)
  }

  /** The bits of x = q * 2^k + r from bit k up are those of q, */
  lemma {:induction false} HighBits(x: nat, p: nat, k: nat, q: nat, r: nat, i: nat)
    requires p == Pow2(k) && x == Times(q, p) + r && r < p
    ensures Bit(x, k + i) == Bit(q, i)
    decreases k
  {
    if k == 0 {
    } else {
      HalfTimes(q, p / 2);
      HighBits(x / 2, p / 2, k - 1, q, r / 2, i);
    }
  }

  /** and those below are r's. */
  lemma {:induction false} LowBits(x: nat, p: nat, k: nat, q: nat, r: nat, i: nat)
    requires p == Pow2(k) && x == Times(q, p) + r && r < p
    ensures Bit(r, i) == if i < k then Bit(x, i) else 0
    decreases k
  {
    if k == 0 {
      ZeroBits(i);
    } else {
      HalfTimes(q, p / 2);
      if i > 0 { LowBits(x / 2, p / 2, k - 1, q, r / 2, i - 1); }
    }
  }

  lemma {:induction false} HalfTimes(q: nat, p: nat)
    ensures Times(q, 2 * p) == 2 * Times(q, p)
  {}

  lemma {:induction false} ZeroBits(i: nat)
    ensures Bit(0, i) == 0
  {
    if i == 0 {
    } else {
      ZeroBits(i - 1);
    }
  }

  lemma {:induction false} Split(x: nat, p: nat) returns (q: nat, r: nat)
    requires p > 0
    ensures x == Times(q, p) + r && r < p && q == x / p && r == x % p
  {
    Below(x, p, x + 1);
    q, r := x / p, x % p;
  }

  lemma {:induction false} SliceBits(cell: u32, size: nat, shift: nat, i: nat)
    requires size > 0
    ensures Bit(Slice(cell, size, shift), i) == if i < size then Bit(cell, shift + i) else 0
  {
    var p, q := Pow2(shift), Pow2(size);
    var hi, lo := Split(cell, p);
    var hi2, d := Split(hi, q);
    assert Slice(cell, size, shift) == d;
    hide Slice, Times, Pow2, Bit;
    LowBits(hi, q, size, hi2, d, i);
    HighBits(cell, p, shift, hi, lo, i);
  }

  lemma {:induction false} MergedBits(cell: u32, size: nat, shift: nat, data: u32, j: nat)
    requires size > 0 && j < 32
    ensures Bit(Merged(cell, size, shift, data), j) == if shift <= j < shift + size then Bit(data, j - shift) else Bit(cell, j)
  {
    var p, q := Pow2(shift), Pow2(size);
    var above, lo := Split(cell, p);
    var hi, mid := Split(above, q);
    var dq, d := Split(data, q);
    var x := Times(hi, q) + d;
    var n := Times(x, p) + lo;
    var nq, z := Split(n, B);
    assert Merged(cell, size, shift, data) == z;
    Pow32();
    hide Merged, Replaced, Times, Pow2, Bit;
    LowBits(n, B, 32, nq, z, j);
    if j < shift {
      LowBits(n, p, shift, x, lo, j);
      LowBits(cell, p, shift, above, lo, j);
    } else {
      HighBits(n, p, shift, x, lo, j - shift);
      if j - shift < size {
        LowBits(x, q, size, hi, d, j - shift);
        LowBits(data, q, size, dq, d, j - shift);
      } else {
        HighBits(x, q, size, hi, d, j - shift - size);
        HighBits(above, q, size, hi, mid, j - shift - size);
        HighBits(cell, p, shift, above, lo, j - shift);
      }
    }
  }

  lemma {:induction false} XorIs(x: nat, y: nat, n: nat, i: nat)
    requires i < n
    ensures Bit(XorBits(x, y, n), i) == (Bit(x, i) + Bit(y, i)) % 2
  {
    var z := XorBits(x / 2, y / 2, n - 1);
    assert XorBits(x, y, n) / 2 == z;
    if i == 0 {
    } else {
      XorIs(x / 2, y / 2, n - 1, i - 1);
    }
  }

  lemma {:induction false} AndIs(x: nat, y: nat, i: nat)
    ensures Bit(BitAnd(x, y), i) == if Bit(x, i) == 1 && Bit(y, i) == 1 then 1 else 0
    decreases i
  {
    if x == 0 || y == 0 {
      ZeroBits(i);
    } else {
      assert BitAnd(x, y) / 2 == BitAnd(x / 2, y / 2);
      if i > 0 { AndIs(x / 2, y / 2, i - 1); }
    }
  }

  // ---- what each micro-op does ------------------------------------------------------------------

  /**
   * Alone in its group, micro-op op replaces the top `take` data stack items by
   * `put`; the registers, memory and the return stack are then as in m1.
   */
  ghost predicate Does(bd: Board, wide: Wides, op: nat, m: Cpu, m1: Cpu, take: nat, put: seq<u32>)
    requires Sane(bd, m.s) && |put| <= 32
  {
    var m' := After(bd, wide, Lone(op), m);
    && m' == m1.(s := m1.s.(t := m'.s.t, dsp := m'.s.dsp, ds := m'.s.ds))
    && m1.s.ret.rsp < bd.capacity && m'.s.dsp < bd.capacity
    && Leaves(bd, m.s, m'.s, take, put)
  }

  /** The second item. */
  function N(bd: Board, s: State): u32
    requires Sane(bd, s)
  {
    Item(bd, s, 1)
  }

  /** Enough for a micro-op to do that: its own effect s1. */
  lemma {:induction false} Moved(bd: Board, wide: Wides, op: nat, m: Cpu, m1: Cpu, s1: State, take: nat, put: seq<u32>)
    requires Sane(bd, m.s) && op < 32 && |put| <= 32 && s1 == Uop(bd, op, m.s)
    requires s1 == m1.s.(t := s1.t, dsp := s1.dsp, ds := s1.ds) && m1.pc == m.pc && m1.pfx == m.pfx
    requires InStacks(bd, s1) && Leaves(bd, m.s, s1, take, put)
    ensures After(bd, wide, Lone(op), m) == m.(s := s1) && Does(bd, wide, op, m, m1, take, put)
  {
    hide Leaves, Uop, After;
    Alone(bd, wide, op, m);
  }

  /** T replaced by x; so are T and N, if N was dropped. */
  lemma {:induction false} TopLeaves(bd: Board, s: State, x: u32)
    requires InStacks(bd, s)
    ensures Leaves(bd, s, s.(t := x), 1, [x])
    ensures InStacks(bd, DDrop(bd, s).(t := x)) && Leaves(bd, s, DDrop(bd, s).(t := x), 2, [x])
  {
    DownOne(s.dsp, bd.capacity);
  }

  lemma {:induction false} SwapLeaves(bd: Board, s: State)
    requires InStacks(bd, s)
    ensures var s' := s.(t := Nos(s), ds := Put(s.ds, s.dsp, s.t));
            InStacks(bd, s') && Leaves(bd, s, s', 2, [Item(bd, s, 1), s.t])
  {}

  /** Only the data stack matters. */
  lemma {:induction false} LeavesAlike(bd: Board, s: State, s1: State, s2: State, take: nat, put: seq<u32>)
    requires InStacks(bd, s) && InStacks(bd, s1) && bd.Valid() && s2.ret.rsp < bd.capacity && |put| <= bd.capacity
    requires Leaves(bd, s, s1, take, put) && s2.t == s1.t && s2.dsp == s1.dsp && s2.ds == s1.ds
    ensures InStacks(bd, s2) && Leaves(bd, s, s2, take, put)
  {
    assert forall i :: 0 <= i <= bd.capacity ==> Item(bd, s2, i) == Item(bd, s1, i);
  }

  /** nop, over, dup, drop, swap, px!. */
  lemma {:induction false} StackMoves(bd: Board, wide: Wides, m: Cpu)
    requires Sane(bd, m.s)
    ensures After(bd, wide, Lone(0x00), m) == m
    ensures var t, n := m.s.t, N(bd, m.s);
            && Does(bd, wide, 0x02, m, m, 0, [n])
            && Does(bd, wide, 0x0A, m, m, 0, [t])
            && Does(bd, wide, 0x0B, m, m, 1, [])
            && Does(bd, wide, 0x18, m, m, 2, [n, t])
            && Does(bd, wide, 0x13, m, m, 1, [])
  {
    var s := m.s;
    assert Uop(bd, 0x00, s) == s && Uop(bd, 0x02, s) == Pushed(bd, s, Nos(s)) && Uop(bd, 0x0A, s) == Pushed(bd, s, s.t);
    assert Uop(bd, 0x0B, s) == Uop(bd, 0x13, s) == DDrop(bd, s);
    assert Uop(bd, 0x18, s) == s.(t := Nos(s), ds := Put(s.ds, s.dsp, s.t));
    hide After, Leaves, Uop, Does;
    Alone(bd, wide, 0x00, m);
    PushLeaves(bd, s, Nos(s));
    PushLeaves(bd, s, s.t);
    DropLeaves(bd, s);
    SwapLeaves(bd, s);
    Moved(bd, wide, 0x02, m, m, Pushed(bd, s, Nos(s)), 0, [Nos(s)]);
    Moved(bd, wide, 0x0A, m, m, Pushed(bd, s, s.t), 0, [s.t]);
    Moved(bd, wide, 0x0B, m, m, DDrop(bd, s), 1, []);
    Moved(bd, wide, 0x13, m, m, DDrop(bd, s), 1, []);
    Moved(bd, wide, 0x18, m, m, s.(t := Nos(s), ds := Put(s.ds, s.dsp, s.t)), 2, [Nos(s), s.t]);
  }

  /** a, b, cy, a!, b!. */
  lemma {:induction false} RegisterMoves(bd: Board, wide: Wides, m: Cpu)
    requires Sane(bd, m.s)
    ensures Does(bd, wide, 0x1E, m, m, 0, [m.s.a]) && Does(bd, wide, 0x1A, m, m, 0, [m.s.b]) && Does(bd, wide, 0x1F, m, m, 0, [m.s.c])
    ensures Does(bd, wide, 0x03, m, m.(s := m.s.(a := m.s.t)), 1, [])
    ensures Does(bd, wide, 0x1B, m, m.(s := m.s.(b := m.s.t)), 1, [])
  {
    var s := m.s;
    assert Uop(bd, 0x1E, s) == Pushed(bd, s, s.a) && Uop(bd, 0x1A, s) == Pushed(bd, s, s.b) && Uop(bd, 0x1F, s) == Pushed(bd, s, s.c);
    assert Uop(bd, 0x03, s) == DDrop(bd, s).(a := s.t) && Uop(bd, 0x1B, s) == DDrop(bd, s).(b := s.t);
    hide After, Leaves, Uop, Does;
    PushLeaves(bd, s, s.a);
    PushLeaves(bd, s, s.b);
    PushLeaves(bd, s, s.c);
    DropLeaves(bd, s);
    LeavesAlike(bd, s, DDrop(bd, s), DDrop(bd, s).(a := s.t), 1, []);
    LeavesAlike(bd, s, DDrop(bd, s), DDrop(bd, s).(b := s.t), 1, []);
    Moved(bd, wide, 0x1E, m, m, Pushed(bd, s, s.a), 0, [s.a]);
    Moved(bd, wide, 0x1A, m, m, Pushed(bd, s, s.b), 0, [s.b]);
    Moved(bd, wide, 0x1F, m, m, Pushed(bd, s, s.c), 0, [s.c]);
    Moved(bd, wide, 0x03, m, m.(s := s.(a := s.t)), DDrop(bd, s).(a := s.t), 1, []);
    Moved(bd, wide, 0x1B, m, m.(s := s.(b := s.t)), DDrop(bd, s).(b := s.t), 1, []);
  }

  /** A cell's value in two's complement. */
  function Signed(x: u32): int {
    if x < 0x8000_0000 then x else x - B
  }

  /** inv, xor, and: bit by bit. */
  lemma {:induction false} BitwiseOps(bd: Board, wide: Wides, m: Cpu)
    requires Sane(bd, m.s)
    ensures Does(bd, wide, 0x01, m, m, 1, [B - 1 - m.s.t])
    ensures var x := After(bd, wide, Lone(0x04), m).s.t;
            Does(bd, wide, 0x04, m, m, 2, [x])
            && forall i :: 0 <= i < 32 ==> Bit(x, i) == (Bit(m.s.t, i) + Bit(N(bd, m.s), i)) % 2
    ensures var x := After(bd, wide, Lone(0x06), m).s.t;
            Does(bd, wide, 0x06, m, m, 2, [x])
            && forall i :: 0 <= i < 32 ==> Bit(x, i) == if Bit(m.s.t, i) == 1 && Bit(N(bd, m.s), i) == 1 then 1 else 0
  {
    hide After, Leaves, Uop, Does, Bit, Xor, And;
    var s, n := m.s, Nos(m.s);
    BitwiseUops(bd, s);
    DataOnly(bd, s, 0);
    TopLeaves(bd, s, B - 1 - s.t);
    TopLeaves(bd, s, Xor(n, s.t));
    TopLeaves(bd, s, And(n, s.t));
    Moved(bd, wide, 0x01, m, m, s.(t := B - 1 - s.t), 1, [B - 1 - s.t]);
    Moved(bd, wide, 0x04, m, m, DDrop(bd, s).(t := Xor(n, s.t)), 2, [Xor(n, s.t)]);
    Moved(bd, wide, 0x06, m, m, DDrop(bd, s).(t := And(n, s.t)), 2, [And(n, s.t)]);
    CellBits(n, s.t);
  }

  lemma {:induction false} BitwiseUops(bd: Board, s: State)
    requires bd.Valid()
    ensures Uop(bd, 0x01, s) == s.(t := B - 1 - s.t)
    ensures Uop(bd, 0x04, s) == DDrop(bd, s).(t := Xor(Nos(s), s.t)) && Uop(bd, 0x06, s) == DDrop(bd, s).(t := And(Nos(s), s.t))
  {
    hide Xor, And;
  }

  lemma {:induction false} CellBits(x: u32, y: u32)
    ensures forall i :: 0 <= i < 32 ==> Bit(Xor(x, y), i) == (Bit(y, i) + Bit(x, i)) % 2
    ensures forall i :: 0 <= i < 32 ==> Bit(And(x, y), i) == if Bit(y, i) == 1 && Bit(x, i) == 1 then 1 else 0
  {
    hide Bit, XorBits, BitAnd;
    forall i | 0 <= i < 32
      ensures Bit(Xor(x, y), i) == (Bit(y, i) + Bit(x, i)) % 2
      ensures Bit(And(x, y), i) == if Bit(y, i) == 1 && Bit(x, i) == 1 then 1 else 0
    {
      XorIs(x, y, 32, i);
      AndIs(x, y, i);
    }
  }

  /** + leaves the sum and sets the carry, 2/c rotates through it. */
  lemma {:induction false} CarryOps(bd: Board, wide: Wides, m: Cpu)
    requires Sane(bd, m.s)
    ensures var s' := After(bd, wide, Lone(0x05), m).s;
            Does(bd, wide, 0x05, m, m.(s := m.s.(c := s'.c)), 2, [s'.t]) && s'.t + s'.c * B == m.s.t + N(bd, m.s)
    ensures var s' := After(bd, wide, Lone(0x10), m).s;
            Does(bd, wide, 0x10, m, m.(s := m.s.(c := s'.c)), 1, [s'.t]) && 2 * s'.t + s'.c == m.s.t + m.s.c * B
  {
    hide After, Leaves, Uop, Does;
    var s := m.s;
    var sum, rot := Uop(bd, 0x05, s), Uop(bd, 0x10, s);
    SumUop(bd, s);
    RotateUop(bd, s);
    DataOnly(bd, s, 0);
    TopLeaves(bd, s, sum.t);
    TopLeaves(bd, s, rot.t);
    LeavesAlike(bd, s, DDrop(bd, s).(t := sum.t), sum, 2, [sum.t]);
    LeavesAlike(bd, s, s.(t := rot.t), rot, 1, [rot.t]);
    Moved(bd, wide, 0x05, m, m.(s := s.(c := sum.c)), sum, 2, [sum.t]);
    Moved(bd, wide, 0x10, m, m.(s := s.(c := rot.c)), rot, 1, [rot.t]);
  }

  predicate IsDouble(x: u32, t: u32) {
    x == 2 * t || x + B == 2 * t
  }

  /** x is t in two's complement, halved downwards. */
  predicate IsHalf(x: u32, t: u32) {
    2 * Signed(x) <= Signed(t) <= 2 * Signed(x) + 1
  }

  /** 2* doubles, 2/ halves the signed value downwards. */
  lemma {:induction false} ShiftOps(bd: Board, wide: Wides, m: Cpu)
    requires Sane(bd, m.s)
    ensures var x := After(bd, wide, Lone(0x09), m).s.t; Does(bd, wide, 0x09, m, m, 1, [x]) && IsDouble(x, m.s.t)
    ensures var x := After(bd, wide, Lone(0x11), m).s.t; Does(bd, wide, 0x11, m, m, 1, [x]) && IsHalf(x, m.s.t)
  {
    hide After, Leaves, Uop, Does, IsDouble, IsHalf;
    var s := m.s;
    var half, twice := Uop(bd, 0x11, s), Uop(bd, 0x09, s);
    TwiceUop(bd, s);
    HalfUop(bd, s);
    TopLeaves(bd, s, twice.t);
    TopLeaves(bd, s, half.t);
    Moved(bd, wide, 0x09, m, m, twice, 1, [twice.t]);
    Moved(bd, wide, 0x11, m, m, half, 1, [half.t]);
  }

  lemma {:induction false} SumUop(bd: Board, s: State)
    requires bd.Valid()
    ensures var r := Uop(bd, 0x05, s); r == DDrop(bd, s).(t := r.t, c := r.c) && r.t + r.c * B == s.t + Nos(s)
  {}

  lemma {:induction false} TwiceUop(bd: Board, s: State)
    requires bd.Valid()
    ensures var r := Uop(bd, 0x09, s); r == s.(t := r.t) && IsDouble(r.t, s.t)
  {}

  lemma {:induction false} HalfUop(bd: Board, s: State)
    requires bd.Valid()
    ensures var r := Uop(bd, 0x11, s); r == s.(t := r.t) && IsHalf(r.t, s.t)
  {}

  lemma {:induction false} RotateUop(bd: Board, s: State)
    requires bd.Valid()
    ensures var r := Uop(bd, 0x10, s); r == s.(t := r.t, c := r.c) && 2 * r.t + r.c == s.t + s.c * B
  {}

  /** The multiply step: T and A as one number of 64 bits, with N added to its high half if it was odd, halved downwards. */
  lemma {:induction false} MultiplyOp(bd: Board, wide: Wides, m: Cpu)
    requires Sane(bd, m.s)
    ensures var s' := After(bd, wide, Lone(0x19), m).s;
            && Does(bd, wide, 0x19, m, m.(s := m.s.(a := s'.a)), 1, [s'.t])
            && 2 * (s'.t * B + s'.a) + m.s.a % 2 == (m.s.t + if m.s.a % 2 == 1 then N(bd, m.s) else 0) * B + m.s.a
  {
    var s, s1 := m.s, Uop(bd, 0x19, m.s);
    var sum := s.t as nat + if s.a % 2 == 1 then Nos(s) else 0;
    assert sum == sum / 2 * 2 + sum % 2 && s.a == s.a / 2 * 2 + s.a % 2;
    assert s1 == s.(t := sum / 2, a := sum % 2 * 0x8000_0000 + s.a / 2);
    hide After, Leaves, Uop, Does;
    TopLeaves(bd, s, s1.t);
    LeavesAlike(bd, s, s.(t := s1.t), s1, 1, [s1.t]);
    Moved(bd, wide, 0x19, m, m.(s := s.(a := s1.a)), s1, 1, [s1.t]);
  }

  /** >r, r>, r@. */
  lemma {:induction false} ReturnStackOps(bd: Board, wide: Wides, m: Cpu)
    requires Sane(bd, m.s)
    ensures var s' := After(bd, wide, Lone(0x07), m).s;
            Does(bd, wide, 0x07, m, m.(s := m.s.(ret := s'.ret)), 1, []) && RLeaves(bd, m.s.ret, s'.ret, 0, [m.s.t])
    ensures var s' := After(bd, wide, Lone(0x0F), m).s;
            Does(bd, wide, 0x0F, m, m.(s := m.s.(ret := s'.ret)), 0, [m.s.ret.r]) && RLeaves(bd, m.s.ret, s'.ret, 1, [])
    ensures Does(bd, wide, 0x0E, m, m, 0, [m.s.ret.r])
  {
    var s, r := m.s, m.s.ret.r;
    var down, up := RDup(bd, s.ret).(r := s.t), RDrop(bd, s.ret);
    assert Uop(bd, 0x07, s) == DDrop(bd, s).(ret := down) && Uop(bd, 0x0F, s) == Pushed(bd, s, r).(ret := up);
    assert Uop(bd, 0x0E, s) == Pushed(bd, s, r);
    hide After, Leaves, RLeaves, Uop, Does, DDrop, Pushed, RDrop, RDup;
    DropLeaves(bd, s);
    PushLeaves(bd, s, r);
    RPushLeaves(bd, s.ret, s.t);
    RDropLeaves(bd, s.ret);
    DataOnly(bd, s, r);
    LeavesAlike(bd, s, DDrop(bd, s), DDrop(bd, s).(ret := down), 1, []);
    LeavesAlike(bd, s, Pushed(bd, s, r), Pushed(bd, s, r).(ret := up), 0, [r]);
    Moved(bd, wide, 0x07, m, m.(s := s.(ret := down)), DDrop(bd, s).(ret := down), 1, []);
    Moved(bd, wide, 0x0F, m, m.(s := s.(ret := up)), Pushed(bd, s, r).(ret := up), 0, [r]);
    Moved(bd, wide, 0x0E, m, m, Pushed(bd, s, r), 0, [r]);
  }

  /** Pushing and dropping change the data stack only. */
  lemma {:induction false} DataOnly(bd: Board, s: State, x: u32)
    requires bd.Valid()
    ensures var s1 := DDrop(bd, s); s1 == s.(t := s1.t, dsp := s1.dsp, ds := s1.ds)
    ensures var s1 := Pushed(bd, s, x); s1 == s.(t := s1.t, dsp := s1.dsp, ds := s1.ds)
  {}

  /** >r followed by r> changes no item of either stack, but for the return stack's deepest cell. */
  lemma {:induction false} PushThenPop(bd: Board, wide: Wides, m: Cpu)
    requires Sane(bd, m.s)
    ensures var m' := After(bd, wide, Lone(0x0F), After(bd, wide, Lone(0x07), m));
            && m' == m.(s := m.s.(ds := m'.s.ds, ret := m'.s.ret)) && m'.s.ret.rsp == m.s.ret.rsp
            && (forall i :: 0 <= i <= bd.capacity ==> Item(bd, m'.s, i) == Item(bd, m.s, i))
            && (forall i :: 0 <= i < bd.capacity ==> RItem(bd, m'.s.ret, i) == RItem(bd, m.s.ret, i))
  {
    hide After, Effects;
    Alone(bd, wide, 0x07, m);
    DownOne(m.s.dsp, bd.capacity);
    UpOne(m.s.ret.rsp, bd.capacity);
    var m1 := After(bd, wide, Lone(0x07), m);
    Alone(bd, wide, 0x0F, m1);
    UpOne(m1.s.dsp, bd.capacity);
    DownOne(m1.s.ret.rsp, bd.capacity);
    var m2 := After(bd, wide, Lone(0x0F), m1);
    assert forall k :: m2.s.ds(k) == m.s.ds(k);
  }

  // ---- memory -----------------------------------------------------------------------------------

  /** The cell an address names, and the width and place of the slice in it. */
  predicate Addresses(a: u32, cell: nat, size: nat, shift: nat) {
    a == size * 0x800_0000 + shift * 0x40_0000 + cell && cell < 0x40_0000 && shift < 32
  }

  /** What a fetch leaves on top: the slice's bits with zeros above, or the whole cell; 0 if the cell can't be read. */
  ghost predicate IsSlice(x: u32, cell: u32, size: nat, shift: nat) {
    if size == 0 then x == cell
    else forall i :: 0 <= i < 32 ==> Bit(x, i) == if i < size then Bit(cell, shift + i) else 0
  }

  ghost predicate Fetched(bd: Board, mem: Cells, a: u32, ior: int, x: u32) {
    exists cell: nat, size: nat, shift: nat ::
      && Addresses(a, cell, size, shift) && ior == bd.readIor(cell)
      && if ior != 0 then x == 0 else IsSlice(x, mem(cell), size, shift)
  }

  /** What a store leaves in memory: the slice's bits are those of x, no other bit is changed; nothing is if it can't be written. */
  ghost predicate HasSlice(was: u32, cell: u32, size: nat, shift: nat, x: u32) {
    if size == 0 then cell == x
    else forall j :: 0 <= j < 32 ==> Bit(cell, j) == if shift <= j < shift + size then Bit(x, j - shift) else Bit(was, j)
  }

  ghost predicate Stored(bd: Board, mem: Cells, a: u32, x: u32, ior: int, mem': Cells) {
    exists cell: nat, size: nat, shift: nat ::
      && Addresses(a, cell, size, shift) && ior == bd.writeIor(cell)
      && (forall k: nat :: k != cell || ior != 0 ==> mem'(k) == mem(k))
      && (ior == 0 ==> HasSlice(mem(cell), mem'(cell), size, shift, x))
  }

  /** The slice after this one, of the same width: in the next cell if it does not end in this one. */
  ghost predicate IsNext(a: u32, a': u32) {
    exists cell: nat, size: nat, shift: nat ::
      && Addresses(a, cell, size, shift)
      && if size == 0 then a' == (a + 1) % B
         else if shift + 2 * size <= 32 then Addresses(a', cell, size, shift + size)
         else Addresses(a', (cell + 1) % 0x40_0000, size, (shift + size) % 32)
  }

  lemma {:induction false} AddressParts(a: u32)
    ensures Addresses(a, CellOf(a), SizeOf(a), ShiftOf(a)) && SizeOf(a) < 32
  {}

  lemma {:induction false} FetchIs(bd: Board, mem: Cells, a: u32)
    ensures var got := Fetch(bd, mem, a); Fetched(bd, mem, a, got.0, got.1)
  {
    AddressParts(a);
    var got := Fetch(bd, mem, a);
    if got.0 == 0 && SizeOf(a) > 0 {
      forall i | 0 <= i < 32 ensures Bit(got.1, i) == if i < SizeOf(a) then Bit(mem(CellOf(a)), ShiftOf(a) + i) else 0 {
        SliceBits(mem(CellOf(a)), SizeOf(a), ShiftOf(a), i);
      }
    }
    assert got.0 == 0 ==> IsSlice(got.1, mem(CellOf(a)), SizeOf(a), ShiftOf(a));
  }

  lemma {:induction false} StoreIs(bd: Board, mem: Cells, a: u32, x: u32)
    ensures var done := Store(bd, mem, a, x); Stored(bd, mem, a, x, done.0, done.1)
  {
    AddressParts(a);
    var done := Store(bd, mem, a, x);
    var cell, size, shift := CellOf(a), SizeOf(a), ShiftOf(a);
    if done.0 == 0 && size > 0 {
      forall j | 0 <= j < 32
        ensures Bit(done.1(cell), j) == if shift <= j < shift + size then Bit(x, j - shift) else Bit(mem(cell), j)
      {
        MergedBits(mem(cell), size, shift, x, j);
      }
    }
    assert done.0 == 0 ==> HasSlice(mem(cell), done.1(cell), size, shift, x);
  }

  lemma {:induction false} NextIs(a: u32)
    ensures IsNext(a, FieldPlus(a))
  {
    AddressParts(a);
    var cell, size, shift := CellOf(a), SizeOf(a), ShiftOf(a);
    if size > 0 {
      OneFurther(a);
      hide SizeOf, ShiftOf, CellOf;
      if shift + 2 * size <= 32 {
        SlicePlace(size, shift + size, a);
      } else {
        assert (shift as int + size - 32) % 32 == (shift + size) % 32;
        SlicePlace(size, (shift + size) % 32, a + 1);
      }
    }
  }

  lemma {:induction false} OneFurther(a: u32)
    ensures CellOf(a) == a % CELLS && (a + 1) % CELLS == (CellOf(a) + 1) % CELLS
  {}

  lemma {:induction false} SlicePlace(size: nat, shift: nat, c: nat)
    requires size < 32 && shift < 32
    ensures Addresses(SliceAddr(size, shift, c), c % CELLS, size, shift)
  {}

  /** @a, @a+, @b, @b+: the slice at the address is pushed, and then the address may go on to the next. */
  lemma {:induction false} Fetches(bd: Board, wide: Wides, m: Cpu)
    requires Sane(bd, m.s)
    ensures var s' := After(bd, wide, Lone(0x0C), m).s;
            Does(bd, wide, 0x0C, m, m.(s := m.s.(ior := s'.ior)), 0, [s'.t]) && Fetched(bd, m.s.mem, m.s.a, s'.ior, s'.t)
    ensures var s' := After(bd, wide, Lone(0x0D), m).s;
            && Does(bd, wide, 0x0D, m, m.(s := m.s.(a := s'.a, ior := s'.ior)), 0, [s'.t])
            && Fetched(bd, m.s.mem, m.s.a, s'.ior, s'.t) && IsNext(m.s.a, s'.a)
    ensures var s' := After(bd, wide, Lone(0x1C), m).s;
            Does(bd, wide, 0x1C, m, m.(s := m.s.(ior := s'.ior)), 0, [s'.t]) && Fetched(bd, m.s.mem, m.s.b, s'.ior, s'.t)
    ensures var s' := After(bd, wide, Lone(0x1D), m).s;
            && Does(bd, wide, 0x1D, m, m.(s := m.s.(b := s'.b, ior := s'.ior)), 0, [s'.t])
            && Fetched(bd, m.s.mem, m.s.b, s'.ior, s'.t) && IsNext(m.s.b, s'.b)
  {
    hide After, Leaves, Uop, Does, Fetch, FieldPlus, Fetched, IsNext, Pushed;
    var s := m.s;
    var ga, gb := Fetch(bd, s.mem, s.a), Fetch(bd, s.mem, s.b);
    var fa, fb := Pushed(bd, s, ga.1).(ior := ga.0), Pushed(bd, s, gb.1).(ior := gb.0);
    FetchUops(bd, s);
    DataOnly(bd, s, ga.1);
    DataOnly(bd, s, gb.1);
    FetchIs(bd, s.mem, s.a);
    FetchIs(bd, s.mem, s.b);
    NextIs(s.a);
    NextIs(s.b);
    LoadLeaves(bd, s, ga.1, fa);
    LoadLeaves(bd, s, ga.1, fa.(a := FieldPlus(s.a)));
    LoadLeaves(bd, s, gb.1, fb);
    LoadLeaves(bd, s, gb.1, fb.(b := FieldPlus(s.b)));
    Moved(bd, wide, 0x0C, m, m.(s := s.(ior := ga.0)), fa, 0, [ga.1]);
    Moved(bd, wide, 0x0D, m, m.(s := s.(ior := ga.0, a := FieldPlus(s.a))), fa.(a := FieldPlus(s.a)), 0, [ga.1]);
    Moved(bd, wide, 0x1C, m, m.(s := s.(ior := gb.0)), fb, 0, [gb.1]);
    Moved(bd, wide, 0x1D, m, m.(s := s.(ior := gb.0, b := FieldPlus(s.b))), fb.(b := FieldPlus(s.b)), 0, [gb.1]);
  }

  lemma {:induction false} FetchUops(bd: Board, s: State)
    requires bd.Valid()
    ensures var got := Fetch(bd, s.mem, s.a);
            var s1 := Pushed(bd, s, got.1).(ior := got.0);
            Uop(bd, 0x0C, s) == s1 && Uop(bd, 0x0D, s) == s1.(a := FieldPlus(s.a))
    ensures var got := Fetch(bd, s.mem, s.b);
            var s1 := Pushed(bd, s, got.1).(ior := got.0);
            Uop(bd, 0x1C, s) == s1 && Uop(bd, 0x1D, s) == s1.(b := FieldPlus(s.b))
  {
    hide Fetch, FieldPlus, Pushed;
  }

  lemma {:induction false} LoadLeaves(bd: Board, s: State, x: u32, s1: State)
    requires InStacks(bd, s) && s1 == Pushed(bd, s, x).(a := s1.a, b := s1.b, ior := s1.ior)
    ensures InStacks(bd, s1) && Leaves(bd, s, s1, 0, [x]) && s1.t == x
    ensures s1 == s.(t := s1.t, dsp := s1.dsp, ds := s1.ds, a := s1.a, b := s1.b, ior := s1.ior)
  {
    PushLeaves(bd, s, x);
    LeavesAlike(bd, s, Pushed(bd, s, x), s1, 0, [x]);
  }

  lemma {:induction false} StoreUops(bd: Board, s: State)
    requires bd.Valid()
    ensures var done := Store(bd, s.mem, s.a, s.t);
            var s1 := DDrop(bd, s).(mem := done.1, ior := done.0);
            Uop(bd, 0x14, s) == s1 && Uop(bd, 0x15, s) == s1.(a := FieldPlus(s.a))
    ensures var done := Store(bd, s.mem, s.b, s.t);
            var s1 := DDrop(bd, s).(mem := done.1, ior := done.0);
            Uop(bd, 0x16, s) == s1 && Uop(bd, 0x17, s) == s1.(b := FieldPlus(s.b))
  {
    hide Store, FieldPlus, DDrop;
  }

  lemma {:induction false} SaveLeaves(bd: Board, s: State, s1: State)
    requires InStacks(bd, s) && s1 == DDrop(bd, s).(a := s1.a, b := s1.b, mem := s1.mem, ior := s1.ior)
    ensures InStacks(bd, s1) && Leaves(bd, s, s1, 1, [])
    ensures s1 == s.(t := s1.t, dsp := s1.dsp, ds := s1.ds, a := s1.a, b := s1.b, mem := s1.mem, ior := s1.ior)
  {
    DropLeaves(bd, s);
    LeavesAlike(bd, s, DDrop(bd, s), s1, 1, []);
  }

  /** !a, !a+, !b, !b+: T is dropped and stored as the slice at the address. */
  lemma {:induction false} Stores(bd: Board, wide: Wides, m: Cpu)
    requires Sane(bd, m.s)
    ensures var s' := After(bd, wide, Lone(0x14), m).s;
            && Does(bd, wide, 0x14, m, m.(s := m.s.(mem := s'.mem, ior := s'.ior)), 1, [])
            && Stored(bd, m.s.mem, m.s.a, m.s.t, s'.ior, s'.mem)
    ensures var s' := After(bd, wide, Lone(0x15), m).s;
            && Does(bd, wide, 0x15, m, m.(s := m.s.(a := s'.a, mem := s'.mem, ior := s'.ior)), 1, [])
            && Stored(bd, m.s.mem, m.s.a, m.s.t, s'.ior, s'.mem) && IsNext(m.s.a, s'.a)
    ensures var s' := After(bd, wide, Lone(0x16), m).s;
            && Does(bd, wide, 0x16, m, m.(s := m.s.(mem := s'.mem, ior := s'.ior)), 1, [])
            && Stored(bd, m.s.mem, m.s.b, m.s.t, s'.ior, s'.mem)
    ensures var s' := After(bd, wide, Lone(0x17), m).s;
            && Does(bd, wide, 0x17, m, m.(s := m.s.(b := s'.b, mem := s'.mem, ior := s'.ior)), 1, [])
            && Stored(bd, m.s.mem, m.s.b, m.s.t, s'.ior, s'.mem) && IsNext(m.s.b, s'.b)
  {
    hide After, Leaves, Uop, Does, Store, FieldPlus, Stored, IsNext, DDrop;
    var s := m.s;
    var da, db := Store(bd, s.mem, s.a, s.t), Store(bd, s.mem, s.b, s.t);
    var fa, fb := DDrop(bd, s).(mem := da.1, ior := da.0), DDrop(bd, s).(mem := db.1, ior := db.0);
    StoreUops(bd, s);
    DataOnly(bd, s, 0);
    StoreIs(bd, s.mem, s.a, s.t);
    StoreIs(bd, s.mem, s.b, s.t);
    NextIs(s.a);
    NextIs(s.b);
    SaveLeaves(bd, s, fa);
    SaveLeaves(bd, s, fa.(a := FieldPlus(s.a)));
    SaveLeaves(bd, s, fb);
    SaveLeaves(bd, s, fb.(b := FieldPlus(s.b)));
    Moved(bd, wide, 0x14, m, m.(s := s.(mem := da.1, ior := da.0)), fa, 1, []);
    Moved(bd, wide, 0x15, m, m.(s := s.(mem := da.1, ior := da.0, a := FieldPlus(s.a))), fa.(a := FieldPlus(s.a)), 1, []);
    Moved(bd, wide, 0x16, m, m.(s := s.(mem := db.1, ior := db.0)), fb, 1, []);
    Moved(bd, wide, 0x17, m, m.(s := s.(mem := db.1, ior := db.0, b := FieldPlus(s.b))), fb.(b := FieldPlus(s.b)), 1, []);
  }

  /** @as pushes the signed value of the slice that @a would push. */
  lemma {:induction false} SignedFetch(bd: Board, wide: Wides, m: Cpu)
    requires Sane(bd, m.s)
    ensures var s', x, size := After(bd, wide, Lone(0x12), m).s, After(bd, wide, Lone(0x0C), m).s, m.s.a / 0x800_0000;
            && Does(bd, wide, 0x12, m, m.(s := m.s.(ior := x.ior)), 0, [s'.t])
            && Signed(s'.t) == if size == 0 then Signed(x.t) else if Bit(x.t, size - 1) == 1 then x.t - Pow2(size) else x.t
  {
    hide After, Effects, Fetch, SignExtended;
    Alone(bd, wide, 0x12, m);
    Alone(bd, wide, 0x0C, m);
    UpOne(m.s.dsp, bd.capacity);
    FetchSmall(bd, m.s.mem, m.s.a);
    SignIs(Fetch(bd, m.s.mem, m.s.a).1, SizeOf(m.s.a));
  }

  lemma {:induction false} FetchSmall(bd: Board, mem: Cells, a: u32)
    ensures SizeOf(a) < 32 && (SizeOf(a) > 0 ==> Fetch(bd, mem, a).1 < Pow2(SizeOf(a)))
  {}

  lemma {:induction false} SignIs(x: u32, size: nat)
    requires size < 32 && (size > 0 ==> x < Pow2(size))
    ensures Signed(SignExtended(x, size)) == if size == 0 then Signed(x) else if Bit(x, size - 1) == 1 then x - Pow2(size) else x
  {
    if size > 0 {
      var sign := Pow2(size - 1);
      SignBound(size);
      if x >= sign { HighBits(x, sign, size - 1, 1, x - sign, 0); } else { HighBits(x, sign, size - 1, 0, x, 0); }
      if x >= sign { Quotient(x, sign, 1, x - sign); } else { Quotient(x, sign, 0, x); }
    }
  }

  lemma {:induction false} SignBound(size: nat)
    requires 0 < size < 32
    ensures 2 * Pow2(size - 1) == Pow2(size) <= 0x8000_0000
    decreases 32 - size
  {
    if size == 31 {
      Pow32();
      assert Pow2(32) == 2 * Pow2(31);
    } else {
      SignBound(size + 1);
    }
  }

  // ---- instructions ----------------------------------------------------------------------------

  /**
   * The micro-ops of a group are done in their order, the top bits' first; after
   * the return, if the group returns, and no more of them once one has failed.
   */
  lemma {:induction false} GroupInOrder(bd: Board, wide: Wides, x: nat, y: nat, z: nat, ret: bool, m: Cpu)
    requires bd.Valid() && m.s.ior == 0 && x < 32 && y < 32 && z < 16
    ensures var m1 := if ret then After(bd, wide, 0xC000, m) else m;
            var m2 := After(bd, wide, Lone(x), m1);
            var m3 := if m2.s.ior == 0 then After(bd, wide, Lone(y), m2) else m2;
            After(bd, wide, 0x8000 + (if ret then 0x4000 else 0) + x * 0x200 + y * 0x10 + z, m)
            == if m3.s.ior == 0 then After(bd, wide, Lone(z), m3) else m3
  {
    hide After, Uop, RDrop;
    var f := Uops(bd);
    GroupRuns(bd, wide, x, y, z, ret, m);
    var m1 := if ret then After(bd, wide, 0xC000, m) else m;
    if ret {
      GroupRuns(bd, wide, 0, 0, 0, true, m);
      NopGroup(bd, m.s.(ret := RDrop(bd, m.s.ret)));
    }
    Alone(bd, wide, x, m1);
    var s1 := Uop(bd, x, m1.s);
    assert [x, y, z][1..] == [y, z] && [y, z][1..] == [z] && [z][1..] == [];
    assert RunOps(f, [x, y, z], m1.s) == RunOps(f, [y, z], s1);
    if s1.ior == 0 {
      Alone(bd, wide, y, m1.(s := s1));
      var s2 := Uop(bd, y, s1);
      assert RunOps(f, [y, z], s1) == RunOps(f, [z], s2);
      if s2.ior == 0 {
        Alone(bd, wide, z, m1.(s := s2));
        assert RunOps(f, [z], s2) == RunOps(f, [], Uop(bd, z, s2));
      }
    }
  }

  lemma {:induction false} NopGroup(bd: Board, s: State)
    requires bd.Valid()
    ensures RunOps(Uops(bd), [0, 0, 0], s) == s
  {
    assert [0, 0, 0][1..] == [0, 0];
    assert Uops(bd)(0, s) == s;
    NopsRun(Uops(bd), s);
  }

  /** A return: the program goes on at R, which is dropped. */
  lemma {:induction false} Return(bd: Board, wide: Wides, m: Cpu)
    requires Sane(bd, m.s)
    ensures var m' := After(bd, wide, 0xC000, m);
            && m' == m.(pc := m.s.ret.r, s := m.s.(ret := m'.s.ret))
            && m'.s.ret.rsp < bd.capacity && RLeaves(bd, m.s.ret, m'.s.ret, 1, [])
  {
    hide After, RLeaves;
    GroupRuns(bd, wide, 0, 0, 0, true, m);
    NopGroup(bd, m.s.(ret := RDrop(bd, m.s.ret)));
    RDropLeaves(bd, m.s.ret);
  }

  /** n with the prefix before it, which has room for `width` numbers after it; what goes over the top is lost. */
  predicate Prefixed(x: u32, pfx: u32, n: nat, width: nat) {
    x == (pfx * width + n) % B
  }

  /** Jumps, calls, literals and prefixes, by their numbers. A call pushes the address it returns to. */
  lemma {:induction false} ThirteenBits(bd: Board, wide: Wides, n: nat, m: Cpu)
    requires Sane(bd, m.s) && n < 0x2000
    ensures var m' := After(bd, wide, n, m);
            m' == m.(pc := m'.pc, pfx := 0) && Prefixed(m'.pc, m.pfx, n, 0x2000)
    ensures var m' := After(bd, wide, 0x2000 + n, m);
            && m' == m.(pc := m'.pc, pfx := 0, s := m.s.(ret := m'.s.ret)) && Prefixed(m'.pc, m.pfx, n, 0x2000)
            && m'.s.ret.rsp < bd.capacity && RLeaves(bd, m.s.ret, m'.s.ret, 0, [m.pc])
    ensures var m' := After(bd, wide, 0x4000 + n, m);
            && m' == m.(pfx := 0, s := m.s.(t := m'.s.t, dsp := m'.s.dsp, ds := m'.s.ds)) && Prefixed(m'.s.t, m.pfx, n, 0x2000)
            && m'.s.dsp < bd.capacity && Leaves(bd, m.s, m'.s, 0, [m'.s.t])
  {
    var f := Effects(bd, wide);
    var x: u32 := (m.pfx * 0x2000 + n) % B;
    Kinds(n);
    assert ActsOf1(n, m.pfx) == [Jump(x)] && ActsOf1(0x2000 + n, m.pfx) == [Call(x)] && ActsOf1(0x4000 + n, m.pfx) == [Push(x)];
    assert Prefixed(x, m.pfx, n, 0x2000);
    hide ActsOf1, Leaves, RLeaves, IsGroup, IsWide, IsPrefix, Prefixed;
    RunOne(f, Jump(x), m);
    RunOne(f, Call(x), m);
    RunOne(f, Push(x), m);
    RPushLeaves(bd, m.s.ret, m.pc);
    PushLeaves(bd, m.s, x);
  }

  lemma {:induction false} Kinds(n: nat)
    requires n < 0x2000
    ensures !IsGroup(n) && n / 0x2000 % 4 == 0
    ensures !IsGroup(0x2000 + n) && (0x2000 + n) / 0x2000 % 4 == 1 && (0x2000 + n) % 0x2000 == n
    ensures !IsGroup(0x4000 + n) && (0x4000 + n) / 0x2000 % 4 == 2 && (0x4000 + n) % 0x2000 == n
    ensures PfxOf1(n, 0) == PfxOf1(0x2000 + n, 0) == PfxOf1(0x4000 + n, 0) == 0
  {}

  /** pfx and pfx1: ten more bits, of which the highest is the instruction's. */
  lemma {:induction false} PrefixOps(bd: Board, wide: Wides, n: nat, m: Cpu)
    requires bd.Valid() && m.s.ior == 0 && n < 0x200
    ensures var m' := After(bd, wide, 0x7800 + n, m); m' == m.(pfx := m'.pfx) && Prefixed(m'.pfx, m.pfx, n, 0x400)
    ensures var m' := After(bd, wide, 0x7A00 + n, m); m' == m.(pfx := m'.pfx) && Prefixed(m'.pfx, m.pfx, 0x200 + n, 0x400)
  {
    var f := Effects(bd, wide);
    NineBits(12, n);
    NineBits(13, n);
    assert ActsOf1(0x7800 + n, m.pfx) == [] && ActsOf1(0x7A00 + n, m.pfx) == [];
    assert RunActs(f, [], m) == m;
  }

  /** The instruction with this operation and nine bits of data. */
  function Other(op: nat, n: nat): nat { 0x6000 + op * 0x200 + n }

  lemma {:induction false} NineBits(op: nat, n: nat)
    requires op < 16 && n < 0x200
    ensures var inst := Other(op, n); IsOther(inst) && inst / 0x200 % 16 == op && inst % 0x200 == n
    ensures IsPrefix(Other(op, n)) <==> op == 12 || op == 13
  {
    var inst := Other(op, n);
    Quotient(inst, 0x200, 0x30 + op, n);
    Quotient(inst, 0x2000, 3, op * 0x200 + n);
    Quotient(inst, 0x8000, 0, inst);
  }

  /** The address that many instructions after pc, or before it: the data is a number of nine bits in two's complement. */
  function Target(pc: u32, n: nat): u32 {
    (pc + if n < 0x100 then n as int else n as int - 0x200) % B
  }

  lemma {:induction false} BranchIs(bd: Board, wide: Wides, op: nat, n: nat, m: Cpu)
    requires bd.Valid() && op <= NEXT && n < 0x200
    ensures After(bd, wide, Other(op, n), m) == BranchEffect(bd, Other(op, n), m) && Other(op, n) / 0x200 % 16 == op
    ensures forall m1: Cpu :: Branched(Other(op, n), m1) == m1.(pc := Target(m1.pc, n))
  {
    NineBits(op, n);
    hide BranchEffect, IsOther, IsPrefix;
    forall m1: Cpu ensures Branched(Other(op, n), m1) == m1.(pc := Target(m1.pc, n)) {
      OffsetIs(m1.pc, Offset(Other(op, n)), n);
    }
  }

  lemma {:induction false} OffsetIs(pc: u32, offset: u32, n: nat)
    requires n < 0x200 && offset == if n >= 0x100 then B - 0x200 + n else n
    ensures (pc + offset) % B == Target(pc, n)
  {}

  /** zbran drops T and branches if it was 0, bran branches, pbran branches if T is not negative. */
  lemma {:induction false} Branches(bd: Board, wide: Wides, n: nat, m: Cpu)
    requires Sane(bd, m.s) && n < 0x200
    ensures var m' := After(bd, wide, Other(ZBRAN, n), m);
            && m' == m.(pc := if m.s.t == 0 then Target(m.pc, n) else m.pc,
                        s := m.s.(t := m'.s.t, dsp := m'.s.dsp, ds := m'.s.ds))
            && m'.s.dsp < bd.capacity && Leaves(bd, m.s, m'.s, 1, [])
    ensures After(bd, wide, Other(BRAN, n), m) == m.(pc := Target(m.pc, n))
    ensures After(bd, wide, Other(PBRAN, n), m) == if Signed(m.s.t) >= 0 then m.(pc := Target(m.pc, n)) else m
  {
    assert ZBRAN == 0 && BRAN == 1 && PBRAN == 2;
    hide After, Leaves, Branched, Other, DDrop;
    BranchIs(bd, wide, ZBRAN, n, m);
    BranchIs(bd, wide, BRAN, n, m);
    BranchIs(bd, wide, PBRAN, n, m);
    DataOnly(bd, m.s, 0);
    DropLeaves(bd, m.s);
  }

  /** rcall branches and pushes the address it returns to. */
  lemma {:induction false} NearCall(bd: Board, wide: Wides, n: nat, m: Cpu)
    requires Sane(bd, m.s) && n < 0x200
    ensures var m' := After(bd, wide, Other(RCALL, n), m);
            && m' == m.(pc := Target(m.pc, n), s := m.s.(ret := m'.s.ret))
            && m'.s.ret.rsp < bd.capacity && RLeaves(bd, m.s.ret, m'.s.ret, 0, [m.pc])
  {
    hide After, RLeaves, Branched, Other, RDup;
    BranchIs(bd, wide, RCALL, n, m);
    RPushLeaves(bd, m.s.ret, m.pc);
  }

  /** next counts R down: it branches if that isn't 0 then, and drops it if it is. */
  lemma {:induction false} Next(bd: Board, wide: Wides, n: nat, m: Cpu)
    requires Sane(bd, m.s) && n < 0x200
    ensures var m' := After(bd, wide, Other(NEXT, n), m);
            && m' == m.(pc := if m.s.ret.r != 1 then Target(m.pc, n) else m.pc, s := m.s.(ret := m'.s.ret))
            && m'.s.ret.rsp < bd.capacity
            && RLeaves(bd, m.s.ret, m'.s.ret, 1, if m.s.ret.r != 1 then [(m.s.ret.r + B - 1) % B] else [])
  {
    hide After, RLeaves, Branched, Other, RDrop;
    BranchIs(bd, wide, NEXT, n, m);
    LessOne(m.s.ret.r);
    CountLeaves(bd, m.s.ret, CountDown(m.s.ret).r);
  }

  lemma {:induction false} LessOne(r: u32)
    ensures (r + B - 1) % B == 0 <==> r == 1
  {}

  /** The top replaced, and replaced and dropped. */
  lemma {:induction false} CountLeaves(bd: Board, k: Rets, r: u32)
    requires bd.Valid() && k.rsp < bd.capacity
    ensures RLeaves(bd, k, k.(r := r), 1, [r])
    ensures RDrop(bd, k.(r := r)).rsp < bd.capacity && RLeaves(bd, k, RDrop(bd, k.(r := r)), 1, [])
  {
    DownOne(k.rsp, bd.capacity);
  }
}
