/**
 * What words of code mean (src/vm.c): each decodes to acts, given the prefix
 * before it, and running the words runs the acts.
 */
module Code {
  import opened Arithmetic
  import opened Slices
  import opened Vm

  /** One effect of an instruction. A wide one is a branch, or one that is not modelled. */
  datatype Act = Op(op: nat) | Push(x: u32) | Call(to: u32) | Jump(to: u32) | Ret | Wide(inst: nat)

  // ---- decoding ---------------------------------------------------------------------------

  function Live(ops: seq<nat>): seq<Act> {
    if ops == [] then [] else (if ops[0] == NOP then [] else [Op(ops[0])]) + Live(ops[1..])
  }

  predicate IsGroup(inst: nat) { inst / 0x8000 % 2 == 1 }
  predicate Returns(inst: nat) { inst / 0x4000 % 2 == 1 }

  /** Bits 14 and 13 choose among jump, call, literal and the rest, which have 9-bit immediate data. */
  predicate IsOther(inst: nat) { !IsGroup(inst) && inst / 0x2000 % 4 == 3 }

  predicate IsPrefix(inst: nat) { IsOther(inst) && inst / 0x200 % 16 in {12, 13} }

  predicate IsWide(inst: nat) { IsOther(inst) && !IsPrefix(inst) }

  /** The 13-bit immediate data of an instruction, after the prefix. */
  function Immediate(inst: nat, pfx: u32): u32 {
    (pfx * 0x2000 + inst % 0x2000) % B
  }

  function ActsOf1(inst: nat, pfx: u32): seq<Act> {
    if IsGroup(inst) then (if Returns(inst) then [Ret] else []) + Live(Slots(inst))
    else if IsWide(inst) then [Wide(inst)]
    else if IsPrefix(inst) then []
    else if inst / 0x2000 % 4 == 0 then [Jump(Immediate(inst, pfx))]
    else if inst / 0x2000 % 4 == 1 then [Call(Immediate(inst, pfx))]
    else [Push(Immediate(inst, pfx))]
  }

  /** The prefix after an instruction: pfx and pfx1 shift in ten bits. */
  function PfxOf1(inst: nat, pfx: u32): u32 {
    if IsGroup(inst) || IsWide(inst) then pfx
    else if IsPrefix(inst) then (pfx * 0x400 + inst % 0x200 + (if inst / 0x200 % 16 == 13 then 0x200 else 0)) % B
    else 0
  }

  function ActsOf(ws: seq<nat>, pfx: u32): seq<Act> {
    if ws == [] then [] else ActsOf1(ws[0], pfx) + ActsOf(ws[1..], PfxOf1(ws[0], pfx))
  }

  function PfxOf(ws: seq<nat>, pfx: u32): u32 {
    if ws == [] then pfx else PfxOf(ws[1..], PfxOf1(ws[0], pfx))
  }

  lemma {:induction false} ActsOfConcat(v: seq<nat>, w: seq<nat>, pfx: u32)
    ensures ActsOf(v + w, pfx) == ActsOf(v, pfx) + ActsOf(w, PfxOf(v, pfx))
    ensures PfxOf(v + w, pfx) == PfxOf(w, PfxOf(v, pfx))
  {
    if v == [] {
      assert v + w == w;
    } else {
      hide ActsOf1, PfxOf1;
      assert (v + w)[1..] == v[1..] + w;
      var p := PfxOf1(v[0], pfx);
      ActsOfConcat(v[1..], w, p);
      var a, b, c := ActsOf1(v[0], pfx), ActsOf(v[1..], p), ActsOf(w, PfxOf(v[1..], p));
      assert a + (b + c) == a + b + c;
    }
  }

  // ---- acts -----------------------------------------------------------------------------------

  /** The machine: what micro-ops work on, the program counter and the prefix. */
  datatype Cpu = Cpu(s: State, pc: u32, pfx: u32)

  type ActMeaning = (Act, Cpu) -> Cpu

  // ---- branches -----------------------------------------------------------------------------

  const ZBRAN: nat := 0
  const BRAN: nat := 1
  const PBRAN: nat := 2
  const RCALL: nat := 3
  const NEXT: nat := 4

  predicate IsBranch(inst: nat) { IsWide(inst) && inst / 0x200 % 16 <= NEXT }

  /** The nine bits of immediate data, their sign extended. */
  function Offset(inst: nat): u32 {
    var imm := inst % 0x200;
    if imm >= 0x100 then B - 0x200 + imm else imm
  }

  function Branched(inst: nat, m: Cpu): Cpu {
    m.(pc := (m.pc + Offset(inst)) % B)
  }

  /** next counts the top of the return stack down, and drops it at 0. */
  function CountDown(k: Rets): Rets {
    k.(r := (k.r + B - 1) % B)
  }

  function BranchEffect(bd: Board, inst: nat, m: Cpu): Cpu
    requires bd.Valid()
  {
    match inst / 0x200 % 16
    case 0 =>
      var m' := m.(s := DDrop(bd, m.s));
      if m.s.t == 0 then Branched(inst, m') else m'
    case 1 => Branched(inst, m)
    case 2 => if m.s.t < 0x8000_0000 then Branched(inst, m) else m
    case 3 => Branched(inst, m.(s := m.s.(ret := RDup(bd, m.s.ret).(r := m.pc))))
    case _ =>
      var k := CountDown(m.s.ret);
      if k.r != 0 then Branched(inst, m.(s := m.s.(ret := k))) else m.(s := m.s.(ret := RDrop(bd, k)))
  }

  function Effect(bd: Board, wide: (nat, Cpu) -> Cpu, act: Act, m: Cpu): Cpu
    requires bd.Valid()
  {
    match act
    case Op(op) => m.(s := Uop(bd, op, m.s))
    case Push(x) => m.(s := Pushed(bd, m.s, x))
    case Call(to) => m.(s := m.s.(ret := RDup(bd, m.s.ret).(r := m.pc)), pc := to)
    case Jump(to) => m.(pc := to)
    case Ret => m.(s := m.s.(ret := RDrop(bd, m.s.ret)), pc := m.s.ret.r)
    case Wide(inst) => if IsBranch(inst) then BranchEffect(bd, inst, m) else wide(inst, m)
  }

  /** `wide` stands for the instructions with 9-bit data that are no branches: system, user and API instructions. */
  function Effects(bd: Board, wide: (nat, Cpu) -> Cpu): ActMeaning
    requires bd.Valid()
  {
    (act: Act, m: Cpu) => Effect(bd, wide, act, m)
  }

  function RunActs(f: ActMeaning, acts: seq<Act>, m: Cpu): Cpu {
    if acts == [] || m.s.ior != 0 then m else RunActs(f, acts[1..], f(acts[0], m))
  }

  lemma {:induction false} RunConcat(f: ActMeaning, a: seq<Act>, b: seq<Act>, m: Cpu)
    ensures RunActs(f, a + b, m) == RunActs(f, b, RunActs(f, a, m))
  {
    if a == [] {
      assert a + b == b;
    } else if m.s.ior == 0 {
      assert (a + b)[1..] == a[1..] + b;
      RunConcat(f, a[1..], b, f(a[0], m));
    }
  }

  /** Dropping nops changes nothing. */
  lemma {:induction false} RunLive(bd: Board, wide: (nat, Cpu) -> Cpu, ops: seq<nat>, m: Cpu)
    requires bd.Valid()
    ensures RunActs(Effects(bd, wide), Live(ops), m) == m.(s := RunOps(Uops(bd), ops, m.s))
  {
    if ops == [] || m.s.ior != 0 {
    } else {
      RunLive(bd, wide, ops[1..], m.(s := Uop(bd, ops[0], m.s)));
      var rest := Live(ops[1..]);
      if ops[0] != NOP {
        assert ([Op(ops[0])] + rest)[1..] == rest;
      } else {
        assert [] + rest == rest;
      }
    }
  }

  // ---- the interpreter ------------------------------------------------------------------------

  /** One instruction, the program counter already past it. */
  function Exec(f: ActMeaning, inst: nat, m: Cpu): Cpu {
    if IsWide(inst) then f(Wide(inst), m)
    else RunActs(f, ActsOf1(inst, m.pfx), m).(pfx := PfxOf1(inst, m.pfx))
  }

  lemma {:induction false} RunOne(f: ActMeaning, act: Act, m: Cpu)
    requires m.s.ior == 0
    ensures RunActs(f, [act], m) == f(act, m)
  {
    assert [act][1..] == [];
  }

  /** vmExec's body for one instruction. */
  method Execute(bd: Board, wide: (nat, Cpu) -> Cpu, inst: nat, m: Cpu) returns (m': Cpu)
    requires bd.Valid() && inst < 0x1_0000 && m.s.ior == 0 && (IsGroup(inst) ==> NoUnext(inst))
    ensures m' == Exec(Effects(bd, wide), inst, m)
  {
    hide Live, Slots, NoUnext, RDup, DDup, BranchEffect, IsBranch;
    if IsGroup(inst) {
      m' := ExecuteGroup(bd, wide, inst, m);
    } else if inst / 0x4000 % 2 == 0 {
      m' := m;
      var immex := (m.pfx * 0x2000 + inst % 0x2000) % B;
      if inst / 0x2000 % 2 == 1 {
        m' := m'.(s := m.s.(ret := RDup(bd, m.s.ret).(r := m.pc)));
        RunOne(Effects(bd, wide), Call(immex), m);
      } else {
        RunOne(Effects(bd, wide), Jump(immex), m);
      }
      m' := m'.(pc := immex, pfx := 0);
    } else if inst / 0x2000 % 2 == 0 {
      var x := (m.pfx * 0x2000 + inst % 0x2000) % B;
      RunOne(Effects(bd, wide), Push(x), m);
      m' := m.(s := DDup(bd, m.s).(t := x), pfx := 0);
    } else {
      var imm := inst % 0x200;
      match inst / 0x200 % 16
      case 12 => m' := m.(pfx := (m.pfx * 0x400 + imm) % B);
      case 13 => m' := m.(pfx := (m.pfx * 0x400 + imm + 0x200) % B);
      case _ => m' := ExecuteOther(bd, wide, inst, m);
    }
  }

  /** The other instructions with 9-bit data: the branches, and those not modelled. */
  method ExecuteOther(bd: Board, wide: (nat, Cpu) -> Cpu, inst: nat, m: Cpu) returns (m': Cpu)
    requires bd.Valid() && IsWide(inst)
    ensures m' == Effect(bd, wide, Wide(inst), m)
  {
    var tos, r := m.s.t, (m.s.ret.r + B - 1) % B;
    m' := m;
    var taken := false;
    match inst / 0x200 % 16 {
      case 0 =>
        m' := m.(s := DDrop(bd, m.s));
        taken := tos == 0;
      case 1 =>
        taken := true;
      case 2 =>
        taken := tos < 0x8000_0000;
      case 3 =>
        m' := m.(s := m.s.(ret := RDup(bd, m.s.ret).(r := m.pc)));
        taken := true;
      case 4 =>
        m' := m.(s := m.s.(ret := m.s.ret.(r := r)));
        taken := r != 0;
        if !taken {
          m' := m'.(s := m'.s.(ret := RDrop(bd, m'.s.ret)));
        }
      case _ =>
        m' := wide(inst, m);
    }
    if taken {
      m' := m'.(pc := (m'.pc + Offset(inst)) % B);
    }
  }

  /** Return first, then the micro-ops. */
  method ExecuteGroup(bd: Board, wide: (nat, Cpu) -> Cpu, inst: nat, m: Cpu) returns (m': Cpu)
    requires bd.Valid() && m.s.ior == 0 && IsGroup(inst) && NoUnext(inst)
    ensures m' == Exec(Effects(bd, wide), inst, m)
  {
    m' := m;
    if Returns(inst) {
      m' := m.(s := m.s.(ret := RDrop(bd, m.s.ret)), pc := m.s.ret.r);
      RunConcat(Effects(bd, wide), [Ret], Live(Slots(inst)), m);
      RunOne(Effects(bd, wide), Ret, m);
    } else {
      assert [] + Live(Slots(inst)) == Live(Slots(inst));
    }
    RunLive(bd, wide, Slots(inst), m');
    var s := Group(bd, inst, m'.s);
    m' := m'.(s := s);
  }

  function Step(f: ActMeaning, m: Cpu): Cpu {
    Exec(f, Half(m.s.mem, m.pc), m.(pc := (m.pc + 1) % B))
  }

  /** n instructions from the program counter, or fewer if one fails. */
  function Steps(f: ActMeaning, m: Cpu, n: nat): Cpu
    decreases n
  {
    if n == 0 || m.s.ior != 0 then m else Steps(f, Step(f, m), n - 1)
  }

  // ---- running code -----------------------------------------------------------------------------

  function Words(mem: Cells, from: nat, end: nat): seq<nat>
    decreases end - from
  {
    if end <= from then [] else [Half(mem, from)] + Words(mem, from + 1, end)
  }

  /** Acts that neither read nor change the program counter and the prefix. */
  predicate Plain(acts: seq<Act>) {
    forall a :: a in acts ==> a.Push? || (a.Op? && a.op != UNEXT)
  }

  /** What a plain act does to the state. */
  function PlainEffect(bd: Board, a: Act, s: State): State
    requires bd.Valid()
  {
    match a
    case Op(op) => Uop(bd, op, s)
    case Push(x) => Pushed(bd, s, x)
    case _ => s
  }

  type StateMeaning = (Act, State) -> State

  function PlainEffects(bd: Board): StateMeaning
    requires bd.Valid()
  {
    (a: Act, s: State) => PlainEffect(bd, a, s)
  }

  function RunPlain(f: StateMeaning, acts: seq<Act>, s: State): State {
    if acts == [] || s.ior != 0 then s else RunPlain(f, acts[1..], f(acts[0], s))
  }

  lemma {:induction false} RunPlainConcat(f: StateMeaning, a: seq<Act>, b: seq<Act>, s: State)
    ensures RunPlain(f, a + b, s) == RunPlain(f, b, RunPlain(f, a, s))
  {
    if a == [] {
      assert a + b == b;
    } else if s.ior == 0 {
      assert (a + b)[1..] == a[1..] + b;
      RunPlainConcat(f, a[1..], b, f(a[0], s));
    }
  }

  lemma {:induction false} PlainRuns(bd: Board, wide: (nat, Cpu) -> Cpu, acts: seq<Act>, m: Cpu)
    requires bd.Valid() && Plain(acts)
    ensures RunActs(Effects(bd, wide), acts, m) == m.(s := RunPlain(PlainEffects(bd), acts, m.s))
  {
    if acts == [] || m.s.ior != 0 {
    } else {
      PlainRuns(bd, wide, acts[1..], m.(s := PlainEffect(bd, acts[0], m.s)));
    }
  }

  /** No access of the acts fails, and none changes the code from .. to. */
  predicate Clean(f: StateMeaning, acts: seq<Act>, s: State, from: nat, to: nat) {
    s.ior == 0 &&
    (acts == [] ||
     (var s' := f(acts[0], s);
      Words(s'.mem, from, to) == Words(s.mem, from, to) && Clean(f, acts[1..], s', from, to)))
  }

  lemma {:induction false} CleanConcat(f: StateMeaning, a: seq<Act>, b: seq<Act>, s: State, from: nat, to: nat)
    requires Clean(f, a + b, s, from, to)
    ensures Clean(f, b, RunPlain(f, a, s), from, to)
    ensures RunPlain(f, a, s).ior == 0 && Words(RunPlain(f, a, s).mem, from, to) == Words(s.mem, from, to)
  {
    if a == [] {
      assert a + b == b;
    } else {
      assert (a + b)[1..] == a[1..] + b;
      CleanConcat(f, a[1..], b, f(a[0], s), from, to);
    }
  }

  lemma {:induction false} WordsTail(m: Cells, m': Cells, from: nat, to: nat)
    requires from < to && Words(m, from, to) == Words(m', from, to)
    ensures Words(m, from + 1, to) == Words(m', from + 1, to)
  {
    assert Words(m, from, to)[1..] == Words(m, from + 1, to);
    assert Words(m', from, to)[1..] == Words(m', from + 1, to);
  }

  lemma {:induction false} CleanTail(f: StateMeaning, acts: seq<Act>, s: State, from: nat, to: nat)
    requires from < to && Clean(f, acts, s, from, to)
    ensures Clean(f, acts, s, from + 1, to)
  {
    if acts == [] {
    } else {
      WordsTail(s.mem, f(acts[0], s).mem, from, to);
      CleanTail(f, acts[1..], f(acts[0], s), from, to);
    }
  }

  /** Straight-line code does its acts and ends with the program counter after it. */
  lemma {:induction false} StraightLine(bd: Board, wide: (nat, Cpu) -> Cpu, m: Cpu, n: nat,
                                        ws: seq<nat>, acts: seq<Act>)
    requires bd.Valid() && m.pc + n < CODE_LIMIT
    requires ws == Words(m.s.mem, m.pc, m.pc + n) && acts == ActsOf(ws, m.pfx)
    requires Plain(acts) && Clean(PlainEffects(bd), acts, m.s, m.pc, m.pc + n)
    ensures Steps(Effects(bd, wide), m, n) ==
            Cpu(RunPlain(PlainEffects(bd), acts, m.s), m.pc + n, PfxOf(ws, m.pfx))
    decreases n
  {
    hide ActsOf1, PfxOf1, Half, Step, Exec, PlainEffects, Plain, IsWide;
    if n == 0 {
    } else {
      var tail := ws[1..];
      var a, b := ActsOf1(ws[0], m.pfx), ActsOf(tail, PfxOf1(ws[0], m.pfx));
      FirstStep(bd, wide, m, n, ws, a, b);
      StraightLine(bd, wide, Step(Effects(bd, wide), m), n - 1, tail, b);
      RunPlainConcat(PlainEffects(bd), a, b, m.s);
    }
  }

  /** After its first instruction, the rest is still to run. */
  lemma {:induction false} FirstStep(bd: Board, wide: (nat, Cpu) -> Cpu, m: Cpu, n: nat,
                                     ws: seq<nat>, a: seq<Act>, b: seq<Act>)
    requires bd.Valid() && 0 < n && m.pc + n < CODE_LIMIT
    requires ws == Words(m.s.mem, m.pc, m.pc + n)
    requires a == ActsOf1(ws[0], m.pfx) && b == ActsOf(ws[1..], PfxOf1(ws[0], m.pfx))
    requires Plain(a + b) && Clean(PlainEffects(bd), a + b, m.s, m.pc, m.pc + n)
    ensures var m' := Step(Effects(bd, wide), m);
            && m' == Cpu(RunPlain(PlainEffects(bd), a, m.s), m.pc + 1, PfxOf1(ws[0], m.pfx))
            && ws[1..] == Words(m'.s.mem, m'.pc, m.pc + n) && Plain(b)
            && Clean(PlainEffects(bd), b, m'.s, m'.pc, m.pc + n)
  {
    hide ActsOf1, PfxOf1, Half, Step, Exec, PlainEffects, Plain, IsWide, RunPlain, ActsOf, PfxOf;
    var end, s' := m.pc + n, RunPlain(PlainEffects(bd), a, m.s);
    CleanConcat(PlainEffects(bd), a, b, m.s, m.pc, end);
    NextStep(bd, wide, m, a, b);
    WordsTail(m.s.mem, s'.mem, m.pc, end);
    assert ws[1..] == Words(m.s.mem, m.pc + 1, end);
    CleanTail(PlainEffects(bd), b, s', m.pc, end);
  }

  lemma {:induction false} PlainSplit(a: seq<Act>, b: seq<Act>)
    requires Plain(a + b)
    ensures Plain(a) && Plain(b)
  {
    forall x | x in a ensures x in a + b {}
    forall x | x in b ensures x in a + b {}
  }

  lemma {:induction false} PlainNotWide(inst: nat, pfx: u32)
    requires Plain(ActsOf1(inst, pfx))
    ensures !IsWide(inst)
  {
    var acts := ActsOf1(inst, pfx);
    assert acts == [] || acts[0] in acts;
  }

  lemma {:induction false} NextStep(bd: Board, wide: (nat, Cpu) -> Cpu, m: Cpu, a: seq<Act>, b: seq<Act>)
    requires bd.Valid() && m.pc + 1 < CODE_LIMIT && Plain(a + b)
    requires a == ActsOf1(Half(m.s.mem, m.pc), m.pfx)
    ensures Plain(b)
    ensures Step(Effects(bd, wide), m) ==
            Cpu(RunPlain(PlainEffects(bd), a, m.s), m.pc + 1, PfxOf1(Half(m.s.mem, m.pc), m.pfx))
  {
    hide ActsOf1, PfxOf1, Half, IsWide, Plain, RunPlain, RunActs, PlainEffects;
    PlainSplit(a, b);
    PlainNotWide(Half(m.s.mem, m.pc), m.pfx);
    PlainRuns(bd, wide, a, m.(pc := m.pc + 1));
  }

  lemma {:induction false} StepsConcat(f: ActMeaning, m: Cpu, a: nat, b: nat)
    ensures Steps(f, m, a + b) == Steps(f, Steps(f, m, a), b)
    decreases a
  {
    if a == 0 || m.s.ior != 0 {
    } else {
      StepsConcat(f, Step(f, m), a - 1, b);
    }
  }
}
