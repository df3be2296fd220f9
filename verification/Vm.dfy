/**
 * The virtual machine's instructions (src/vm.c): groups of micro-ops,
 * literals, jumps and calls, with one data stack item in a register.
 */
module Vm {
  import opened Arithmetic
  import opened Slices

  type bit = x: nat | x < 2

  /** The return stack: its top in a register. */
  datatype Rets = Rets(r: u32, rsp: nat, rs: Cells)

  /** What micro-ops work on. */
  datatype State = State(t: u32, a: u32, b: u32, c: bit, dsp: nat, ds: Cells, mem: Cells, ret: Rets, ior: int)

  // ---- stacks -----------------------------------------------------------------------------

  function Nos(s: State): u32 { s.ds(s.dsp) }

  function DDup(bd: Board, s: State): State
    requires bd.Valid()
  {
    var p := (s.dsp + 1) % bd.capacity;
    s.(dsp := p, ds := Put(s.ds, p, s.t))
  }

  function DDrop(bd: Board, s: State): State
    requires bd.Valid()
  {
    s.(t := Nos(s), dsp := (s.dsp + bd.capacity - 1) % bd.capacity)
  }

  function RDup(bd: Board, k: Rets): Rets
    requires bd.Valid()
  {
    var p := (k.rsp + 1) % bd.capacity;
    k.(rsp := p, rs := Put(k.rs, p, k.r))
  }

  function RDrop(bd: Board, k: Rets): Rets
    requires bd.Valid()
  {
    k.(r := k.rs(k.rsp), rsp := (k.rsp + bd.capacity - 1) % bd.capacity)
  }

  function Pushed(bd: Board, s: State, x: u32): State
    requires bd.Valid()
  {
    DDup(bd, s).(t := x)
  }

  // ---- micro-ops ------------------------------------------------------------------------------

  /** A read micro-op pushes what it fetched, 0 if it failed. */
  function Load(bd: Board, s: State, addr: u32): State
    requires bd.Valid()
  {
    var got := Fetch(bd, s.mem, addr);
    Pushed(bd, s, got.1).(ior := got.0)
  }

  function Save(bd: Board, s: State, addr: u32): State
    requires bd.Valid()
  {
    var done := Store(bd, s.mem, addr, s.t);
    DDrop(bd, s).(mem := done.1, ior := done.0)
  }

  /** The bits above a slice's sign bit, set if it is. */
  function SignExtended(n: u32, size: nat): u32 {
    if size == 0 || size > 32 then n
    else
      var sign := Pow2(size - 1);
      if n / sign % 2 == 1 then (n % sign + B - sign) % B else n
  }

  /** The lowest n bits, each 1 where one of x and y has a 1 and the other a 0. */
  function XorBits(x: nat, y: nat, n: nat): (z: nat)
    ensures z < Pow2(n)
  {
    if n == 0 then 0 else 2 * XorBits(x / 2, y / 2, n - 1) + (x % 2 + y % 2) % 2
  }

  function Xor(x: u32, y: u32): u32 {
    Pow32();
    XorBits(x, y, 32)
  }

  function And(x: u32, y: u32): u32 {
    BitAnd(x, y)
  }

  /** The multiply step: T and A are shifted right as one, after adding N to T if A is odd. */
  function PlusStar(s: State): State {
    var sum := s.t as nat + if s.a % 2 == 1 then Nos(s) else 0;
    s.(t := sum / 2, a := sum % 2 * 0x8000_0000 + s.a / 2)
  }

  const NOP: nat := 0x00
  const INV: nat := 0x01
  const PUSH: nat := 0x07
  const UNEXT: nat := 0x08
  const RFETCH: nat := 0x0E
  const POP: nat := 0x0F

  /** What each micro-op does. unext, which runs its group again, is not among them. */
  function Uop(bd: Board, op: nat, s: State): State
    requires bd.Valid()
  {
    match op
    case 0x00 => s                                                        // nop
    case 0x01 => s.(t := 0xFFFF_FFFF - s.t)                               // inv
    case 0x02 => Pushed(bd, s, Nos(s))                                    // over
    case 0x03 => DDrop(bd, s).(a := s.t)                                  // a!
    case 0x04 => DDrop(bd, s).(t := Xor(Nos(s), s.t)) // xor
    case 0x05 =>                                                          // +
      var sum := (s.t as nat + Nos(s)) % B;
      DDrop(bd, s).(t := sum, c := if sum < s.t then 1 else 0)
    case 0x06 => DDrop(bd, s).(t := And(Nos(s), s.t)) // and
    case 0x07 => DDrop(bd, s).(ret := RDup(bd, s.ret).(r := s.t))         // >r
    case 0x09 => s.(t := s.t as nat * 2 % B)                              // 2*
    case 0x0A => DDup(bd, s)                                              // dup
    case 0x0B => DDrop(bd, s)                                             // drop
    case 0x0C => Load(bd, s, s.a)                                         // @a
    case 0x0D => Load(bd, s, s.a).(a := FieldPlus(s.a))                   // @a+
    case 0x0E => Pushed(bd, s, s.ret.r)                                   // r@
    case 0x0F => Pushed(bd, s, s.ret.r).(ret := RDrop(bd, s.ret))         // r>
    case 0x10 => s.(t := s.c * 0x8000_0000 + s.t / 2, c := s.t % 2)       // 2/c
    case 0x11 => s.(t := s.t / 2 + s.t / 0x8000_0000 * 0x8000_0000)       // 2/
    case 0x12 =>                                                          // @as
      var l := Load(bd, s, s.a);
      l.(t := SignExtended(l.t, SizeOf(s.a)))
    case 0x13 => DDrop(bd, s)                                             // px!
    case 0x14 => Save(bd, s, s.a)                                         // !a
    case 0x15 => Save(bd, s, s.a).(a := FieldPlus(s.a))                   // !a+
    case 0x16 => Save(bd, s, s.b)                                         // !b
    case 0x17 => Save(bd, s, s.b).(b := FieldPlus(s.b))                   // !b+
    case 0x18 => s.(t := Nos(s), ds := Put(s.ds, s.dsp, s.t))             // swap
    case 0x19 => PlusStar(s)                                              // +*
    case 0x1A => Pushed(bd, s, s.b)                                       // b
    case 0x1B => DDrop(bd, s).(b := s.t)                                  // b!
    case 0x1C => Load(bd, s, s.b)                                         // @b
    case 0x1D => Load(bd, s, s.b).(b := FieldPlus(s.b))                   // @b+
    case 0x1E => Pushed(bd, s, s.a)                                       // a
    case 0x1F => Pushed(bd, s, s.c)                                       // cy
    case _ => s
  }

  type Meaning = (nat, State) -> State

  function Uops(bd: Board): Meaning
    requires bd.Valid()
  {
    (op: nat, s: State) => Uop(bd, op, s)
  }

  /** Micro-ops one by one; a failed memory access ends them. */
  function RunOps(f: Meaning, ops: seq<nat>, s: State): State {
    if ops == [] || s.ior != 0 then s else RunOps(f, ops[1..], f(ops[0], s))
  }

  // ---- a group --------------------------------------------------------------------------------

  /** The three slots of a group: 5, 5 and 4 bits. */
  function Slots(inst: nat): seq<nat> {
    [inst / 0x200 % 32, inst / 0x10 % 32, inst % 16]
  }

  predicate NoUnext(inst: nat) {
    UNEXT !in Slots(inst)
  }

  /** The slots as vmExec lines them up, at the top of a word. */
  function LinedUp(inst: nat): u32 {
    inst / 0x10 % 0x400 * 0x40_0000 + inst % 16 * 0x2_0000
  }

  /** They, after n were shifted out. */
  function Shifted(slots: u32, n: nat): u32 {
    if n == 0 then slots else Shifted(slots, n - 1) * 32 % B
  }

  lemma {:induction false} Shifts(x: nat, y: nat, z: nat, slots: nat)
    requires x < 32 && y < 32 && z < 16 && slots == (x * 32 + y) * 0x40_0000 + z * 0x2_0000
    ensures slots < B && slots / 0x800_0000 == x
    ensures slots * 32 % B == y * 0x800_0000 + z * 0x40_0000
  {}

  lemma {:induction false} Shifts2(y: nat, z: nat, slots: nat)
    requires y < 32 && z < 16 && slots == y * 0x800_0000 + z * 0x40_0000
    ensures slots < B && slots / 0x800_0000 == y && slots * 32 % B == z * 0x800_0000
    ensures z * 0x800_0000 / 0x800_0000 == z && z * 0x800_0000 * 32 % B == 0
  {}

  lemma {:induction false} ShiftedBy(s: u32, s1: u32, s2: u32, n: nat)
    requires s1 == s as nat * 32 % B && s2 == s1 as nat * 32 % B && n <= 3
    ensures Shifted(s, n) == if n == 0 then s else if n == 1 then s1 else if n == 2 then s2 else s2 as nat * 32 % B
  {
    if n == 0 {
    } else {
      ShiftedBy(s, s1, s2, n - 1);
    }
  }

  lemma {:induction false} TwoSlots(inst: nat)
    ensures inst / 0x10 % 0x400 == inst / 0x200 % 32 * 32 + inst / 0x10 % 32
  {
    var k := inst / 0x10;
    assert k / 32 == inst / 0x200;
    assert k % 0x400 == k / 32 % 32 * 32 + k % 32;
  }

  lemma {:induction false} ShiftedSlots(inst: nat, n: nat)
    requires n < 3
    ensures Shifted(LinedUp(inst), n) / 0x800_0000 == Slots(inst)[n]
    ensures n == 2 ==> Shifted(LinedUp(inst), n + 1) == 0
  {
    var x, y, z := inst / 0x200 % 32, inst / 0x10 % 32, inst % 16;
    TwoSlots(inst);
    var s := LinedUp(inst);
    Shifts(x, y, z, s);
    var s1 := y * 0x800_0000 + z * 0x40_0000;
    Shifts2(y, z, s1);
    ShiftedBy(s, s1, z * 0x800_0000, n);
    ShiftedBy(s, s1, z * 0x800_0000, 3);
  }

  /** Slots skipped once the rest of the word is 0 are all nops. */
  lemma {:induction false} SkippedNops(f: Meaning, inst: nat, n: nat, s: State)
    requires (forall x :: f(NOP, x) == x) && n <= 3 && Shifted(LinedUp(inst), n) == 0
    ensures RunOps(f, Slots(inst)[n..], s) == s
    decreases 3 - n
  {
    if n >= 3 {
    } else {
      ShiftedSlots(inst, n);
      SkippedNops(f, inst, n + 1, s);
      assert Slots(inst)[n..][1..] == Slots(inst)[n + 1..];
    }
  }

  /** One turn of the loop. */
  lemma {:induction false} OneSlot(f: Meaning, inst: nat, n: nat, s: State, s': State)
    requires (forall x :: f(NOP, x) == x) && n < 3 && s.ior == 0
    requires s' == f(Shifted(LinedUp(inst), n) / 0x800_0000, s)
    ensures RunOps(f, Slots(inst)[n..], s) == RunOps(f, Slots(inst)[n + 1..], s')
    ensures s'.ior != 0 || Shifted(LinedUp(inst), n + 1) == 0 ==> RunOps(f, Slots(inst)[n + 1..], s') == s'
    ensures n == 2 ==> Shifted(LinedUp(inst), n + 1) == 0
  {
    ShiftedSlots(inst, n);
    assert Slots(inst)[n..][1..] == Slots(inst)[n + 1..];
    if Shifted(LinedUp(inst), n + 1) == 0 {
      SkippedNops(f, inst, n + 1, s');
    }
  }

  /** A turn of vmExec's loop over the slots. */
  method Turn(f: Meaning, inst: nat, slots: u32, ghost n: nat, s: State) returns (s': State, slots': u32)
    requires (forall x :: f(NOP, x) == x) && n < 3 && s.ior == 0 && slots == Shifted(LinedUp(inst), n)
    ensures slots' != 0 ==> s'.ior == 0 && n < 2 && slots' == Shifted(LinedUp(inst), n + 1)
    ensures RunOps(f, Slots(inst)[n..], s) == if slots' == 0 then s' else RunOps(f, Slots(inst)[n + 1..], s')
  {
    s' := f(slots / 0x800_0000, s);
    OneSlot(f, inst, n, s, s');
    slots' := slots as nat * 32 % B;
    if s'.ior != 0 {
      slots' := 0;
    }
  }

  /** vmExec's group: slots are shifted out until none are left or an access failed. */
  method Group(bd: Board, inst: nat, s: State) returns (s': State)
    requires bd.Valid() && NoUnext(inst) && s.ior == 0
    ensures s' == RunOps(Uops(bd), Slots(inst), s)
  {
    s' := s;
    var slots := LinedUp(inst);
    ghost var n: nat := 0;
    var again := true;
    assert Slots(inst)[0..] == Slots(inst);
    while again
      invariant n <= 3 && (again ==> n < 3 && s'.ior == 0 && slots == Shifted(LinedUp(inst), n))
      invariant RunOps(Uops(bd), Slots(inst), s) == if again then RunOps(Uops(bd), Slots(inst)[n..], s') else s'
      decreases 3 - n, again
    {
      s', slots := Turn(Uops(bd), inst, slots, n, s');
      n := n + 1;
      again := slots != 0;
    }
  }
}
