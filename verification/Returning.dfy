/**
 * Why a return may be merged into the group before it, and a call before a
 * return become a jump (src/comp.c).
 */
module Returning {
  import opened Arithmetic
  import opened Slices
  import opened Vm
  import opened Code

  /** The micro-ops UsesRetStack looks for. */
  predicate UsesRets(op: nat) {
    op in {PUSH, RFETCH, POP, UNEXT}
  }

  lemma {:induction false} RetFree0(bd: Board, op: nat, s: State, k: Rets)
    requires bd.Valid() && op < 5
    ensures Uop(bd, op, s.(ret := k)) == Uop(bd, op, s).(ret := k)
  {}

  lemma {:induction false} RetFree5(bd: Board, op: nat, s: State, k: Rets)
    requires bd.Valid() && 5 <= op < 8 && !UsesRets(op)
    ensures Uop(bd, op, s.(ret := k)) == Uop(bd, op, s).(ret := k)
  {}

  lemma {:induction false} RetFree1(bd: Board, op: nat, s: State, k: Rets)
    requires bd.Valid() && 8 <= op < 16 && !UsesRets(op)
    ensures Uop(bd, op, s.(ret := k)) == Uop(bd, op, s).(ret := k)
  {}

  lemma {:induction false} RetFree2(bd: Board, op: nat, s: State, k: Rets)
    requires bd.Valid() && 16 <= op < 24
    ensures Uop(bd, op, s.(ret := k)) == Uop(bd, op, s).(ret := k)
  {}

  lemma {:induction false} RetFree3(bd: Board, op: nat, s: State, k: Rets)
    requires bd.Valid() && 24 <= op < 28
    ensures Uop(bd, op, s.(ret := k)) == Uop(bd, op, s).(ret := k)
  {}

  lemma {:induction false} RetFree4(bd: Board, op: nat, s: State, k: Rets)
    requires bd.Valid() && 28 <= op
    ensures Uop(bd, op, s.(ret := k)) == Uop(bd, op, s).(ret := k)
  {}

  /** No other micro-op reads or changes the return stack. */
  lemma {:induction false} RetFree(bd: Board, op: nat, s: State, k: Rets)
    requires bd.Valid() && !UsesRets(op)
    ensures Uop(bd, op, s.(ret := k)) == Uop(bd, op, s).(ret := k)
  {
    if op < 5 { RetFree0(bd, op, s, k); }
    else if op < 8 { RetFree5(bd, op, s, k); }
    else if op < 16 { RetFree1(bd, op, s, k); }
    else if op < 24 { RetFree2(bd, op, s, k); }
    else if op < 28 { RetFree3(bd, op, s, k); }
    else { RetFree4(bd, op, s, k); }
  }

  predicate RetFreeActs(acts: seq<Act>) {
    forall a :: a in acts ==> a.Push? || (a.Op? && !UsesRets(a.op))
  }

  lemma {:induction false} RunRetFree(bd: Board, acts: seq<Act>, s: State, k: Rets)
    requires bd.Valid() && RetFreeActs(acts)
    ensures RunPlain(PlainEffects(bd), acts, s.(ret := k)) == RunPlain(PlainEffects(bd), acts, s).(ret := k)
  {
    if acts == [] || s.ior != 0 {
    } else {
      if acts[0].Op? {
        RetFree(bd, acts[0].op, s, k);
      }
      RunRetFree(bd, acts[1..], PlainEffect(bd, acts[0], s), k);
    }
  }

  /** Returning first, then doing acts that leave the return stack alone, is doing them and returning. */
  lemma {:induction false} MergedReturn(bd: Board, wide: (nat, Cpu) -> Cpu, acts: seq<Act>, m: Cpu)
    requires bd.Valid() && RetFreeActs(acts) && RunPlain(PlainEffects(bd), acts, m.s).ior == 0
    ensures RunActs(Effects(bd, wide), [Ret] + acts, m) == RunActs(Effects(bd, wide), acts + [Ret], m)
  {
    var f := Effects(bd, wide);
    if m.s.ior == 0 {
      RunConcat(f, [Ret], acts, m);
      RunOne(f, Ret, m);
      var back := Effect(bd, wide, Ret, m);
      PlainRuns(bd, wide, acts, back);
      RunRetFree(bd, acts, m.s, back.s.ret);
      RunRetFree(bd, acts, m.s, m.s.ret);
      assert m.s.(ret := m.s.ret) == m.s;
      RunConcat(f, acts, [Ret], m);
      PlainRuns(bd, wide, acts, m);
      RunOne(f, Ret, m.(s := RunPlain(PlainEffects(bd), acts, m.s)));
    }
  }

  lemma {:induction false} UpAndDown(p: nat, cap: nat)
    requires p < cap && cap > 1
    ensures ((p + 1) % cap + cap - 1) % cap == p && (p + 1) % cap != p
  {
    if p + 1 < cap {
      Quotient(p + 1, cap, 0, p + 1);
      Quotient(p + cap, cap, 1, p);
    } else {
      Quotient(p + 1, cap, 1, 0);
      Quotient(cap - 1, cap, 0, cap - 1);
    }
  }

  // ---- frames of the return stack ------------------------------------------------------------

  /** The cell i below p, around the end. */
  function Below(p: nat, i: nat, cap: nat): nat
    requires i <= cap
  {
    if i <= p then p - i else p + cap - i
  }

  /** The cell i above p, around the end. */
  function Ahead(p: nat, i: nat, cap: nat): nat {
    if p + i < cap then p + i else p + i - cap
  }

  lemma {:induction false} AheadBelow(p: nat, d: nat, cap: nat)
    requires p < cap && 0 < d <= cap
    ensures Below(Ahead(p, d, cap), 1, cap) == Ahead(p, d - 1, cap) < cap
    ensures Ahead(Ahead(p, d - 1, cap), 1, cap) == Ahead(p, d, cap) < cap
  {}

  /** Item i of the return stack, from its top. */
  function Frame(bd: Board, k: Rets, i: nat): u32
    requires i <= bd.capacity
  {
    if i == 0 then k.r else k.rs(Below(k.rsp, i - 1, bd.capacity))
  }

  lemma {:induction false} Around(p: nat, cap: nat)
    requires p < cap && cap > 1
    ensures (p + 1) % cap == Ahead(p, 1, cap) && (p + cap - 1) % cap == Below(p, 1, cap)
  {
    Quotient(p + 1, cap, if p + 1 < cap then 0 else 1, Ahead(p, 1, cap));
    Quotient(p + cap - 1, cap, if p > 0 then 1 else 0, Below(p, 1, cap));
  }

  lemma {:induction false} FramePushed(bd: Board, k: Rets, x: u32, i: nat)
    requires bd.Valid() && k.rsp < bd.capacity && i < bd.capacity
    ensures Frame(bd, RDup(bd, k).(r := x), i + 1) == Frame(bd, k, i) && RDup(bd, k).rsp == Ahead(k.rsp, 1, bd.capacity)
  {
    Around(k.rsp, bd.capacity);
  }

  lemma {:induction false} FramePopped(bd: Board, k: Rets, i: nat)
    requires bd.Valid() && k.rsp < bd.capacity && i < bd.capacity
    ensures Frame(bd, RDrop(bd, k), i) == Frame(bd, k, i + 1) && RDrop(bd, k).rsp == Below(k.rsp, 1, bd.capacity)
  {
    Around(k.rsp, bd.capacity);
  }

  /**
   * The return stacks of a word at depth d, when it was called (c) and when it
   * was jumped to (j): their top d items are alike, and only c has, under
   * those, the address a. Under that are n items and more of the caller's, k.
   */
  ghost predicate Apart(bd: Board, c: Rets, j: Rets, d: nat, a: u32, k: Rets, n: nat) {
    var cap := bd.capacity;
    && k.rsp < cap && j.rsp < cap && c.rsp < cap && d + n + 1 <= cap
    && j.rsp == Ahead(k.rsp, d, cap) && c.rsp == Ahead(k.rsp, d + 1, cap)
    && (forall i: nat :: i < d ==> Frame(bd, c, i) == Frame(bd, j, i))
    && Frame(bd, c, d) == a
    && (forall i: nat :: i <= n ==> Frame(bd, c, d + 1 + i) == Frame(bd, k, i))
    && (forall i: nat :: i <= n ==> Frame(bd, j, d + i) == Frame(bd, k, i))
  }

  lemma {:induction false} ApartPushed(bd: Board, c: Rets, j: Rets, d: nat, a: u32, k: Rets, n: nat, x: u32)
    requires bd.Valid() && Apart(bd, c, j, d, a, k, n) && d + n + 2 <= bd.capacity
    ensures Apart(bd, RDup(bd, c).(r := x), RDup(bd, j).(r := x), d + 1, a, k, n)
  {
    hide Frame, RDup, Ahead, Below;
    var c', j' := RDup(bd, c).(r := x), RDup(bd, j).(r := x);
    AheadBelow(k.rsp, d + 1, bd.capacity);
    AheadBelow(k.rsp, d + 2, bd.capacity);
    FramePushed(bd, c, x, 0);
    FramePushed(bd, j, x, 0);
    forall i: nat | i <= d + n + 1
      ensures Frame(bd, c', i + 1) == Frame(bd, c, i) && Frame(bd, j', i + 1) == Frame(bd, j, i)
    {
      FramePushed(bd, c, x, i);
      FramePushed(bd, j, x, i);
    }
    FrameTop(bd, c');
    FrameTop(bd, j');
    forall i: nat | i < d + 1 ensures Frame(bd, c', i) == Frame(bd, j', i) {
      if i > 0 { assert Frame(bd, c', i - 1 + 1) == Frame(bd, c, i - 1); }
    }
    forall i: nat | i <= n ensures Frame(bd, c', d + 1 + 1 + i) == Frame(bd, k, i) {
      assert Frame(bd, c', (d + 1 + i) + 1) == Frame(bd, c, d + 1 + i);
    }
    forall i: nat | i <= n ensures Frame(bd, j', d + 1 + i) == Frame(bd, k, i) {
      assert Frame(bd, j', (d + i) + 1) == Frame(bd, j, d + i);
    }
  }

  lemma {:induction false} FrameTop(bd: Board, k: Rets)
    ensures Frame(bd, k, 0) == k.r
  {}

  lemma {:induction false} ApartPopped(bd: Board, c: Rets, j: Rets, d: nat, a: u32, k: Rets, n: nat)
    requires bd.Valid() && Apart(bd, c, j, d, a, k, n) && d > 0
    ensures c.r == j.r && Apart(bd, RDrop(bd, c), RDrop(bd, j), d - 1, a, k, n)
  {
    hide Frame, RDrop, Ahead, Below;
    var c', j' := RDrop(bd, c), RDrop(bd, j);
    AheadBelow(k.rsp, d, bd.capacity);
    AheadBelow(k.rsp, d + 1, bd.capacity);
    forall i: nat | i < d + n + 1
      ensures Frame(bd, c', i) == Frame(bd, c, i + 1) && Frame(bd, j', i) == Frame(bd, j, i + 1)
    {
      FramePopped(bd, c, i);
      FramePopped(bd, j, i);
    }
    FrameTop(bd, c);
    FrameTop(bd, j);
    FramePopped(bd, c, 0);
    FramePopped(bd, j, 0);
    assert Frame(bd, c, 0) == Frame(bd, j, 0);
    forall i: nat | i <= n ensures Frame(bd, c', d - 1 + 1 + i) == Frame(bd, k, i) {
      assert Frame(bd, c', d + i) == Frame(bd, c, (d + i) + 1);
    }
    forall i: nat | i <= n ensures Frame(bd, j', d - 1 + i) == Frame(bd, k, i) {
      assert Frame(bd, j', d - 1 + i) == Frame(bd, j, (d - 1 + i) + 1);
    }
  }

  // ---- a word at its depth ----------------------------------------------------------------------

  /** next ends its loop here. */
  predicate LoopEnds(act: Act, m: Cpu) {
    act.Wide? && act.inst / 0x200 % 16 == NEXT && CountDown(m.s.ret).r == 0
  }

  /** How an act moves the return stack's depth. */
  function Deeper(act: Act, m: Cpu): int {
    if act.Call? || act == Op(PUSH) || (act.Wide? && act.inst / 0x200 % 16 == RCALL) then 1
    else if act == Ret || act == Op(POP) || LoopEnds(act, m) then -1
    else 0
  }

  /** At depth d an act uses only the word's own items, and no more than `most` of them. */
  predicate Fair(act: Act, m: Cpu, d: int, most: nat) {
    && (act.Wide? ==> IsBranch(act.inst) && (act.inst / 0x200 % 16 == NEXT ==> d > 0))
    && act != Op(UNEXT) && 0 <= d + Deeper(act, m) <= most
    && (act == Op(RFETCH) ==> d > 0)
  }

  predicate FairActs(bd: Board, acts: seq<Act>, m: Cpu, d: int, most: nat)
    requires bd.Valid()
    decreases |acts|
  {
    acts == [] || m.s.ior != 0 ||
    (Fair(acts[0], m, d, most) && FairActs(bd, acts[1..], Effect(bd, Unmodelled, acts[0], m), d + Deeper(acts[0], m), most))
  }

  function DepthAfter(bd: Board, acts: seq<Act>, m: Cpu, d: int): int
    requires bd.Valid()
    decreases |acts|
  {
    if acts == [] || m.s.ior != 0 then d
    else DepthAfter(bd, acts[1..], Effect(bd, Unmodelled, acts[0], m), d + Deeper(acts[0], m))
  }

  /** In fair acts no instruction that is not modelled comes up. */
  function Unmodelled(inst: nat, m: Cpu): Cpu { m }

  /** The machine in a word that was called, and in the word jumped to. */
  ghost predicate Twins(bd: Board, c: Cpu, j: Cpu, d: int, a: u32, k: Rets, n: nat) {
    d >= 0 && c.pc == j.pc && c.pfx == j.pfx && c.s == j.s.(ret := c.s.ret) && Apart(bd, c.s.ret, j.s.ret, d, a, k, n)
  }

  lemma {:induction false} OpTwins(bd: Board, op: nat, c: Cpu, j: Cpu, d: nat, a: u32, k: Rets, n: nat, most: nat)
    requires bd.Valid() && Twins(bd, c, j, d, a, k, n) && Fair(Op(op), j, d, most) && most + n + 1 <= bd.capacity
    ensures Twins(bd, c.(s := Uop(bd, op, c.s)), j.(s := Uop(bd, op, j.s)), d + Deeper(Op(op), j), a, k, n)
  {
    hide Apart;
    if op == PUSH {
      ApartPushed(bd, c.s.ret, j.s.ret, d, a, k, n, c.s.t);
    } else if op == POP {
      ApartPopped(bd, c.s.ret, j.s.ret, d, a, k, n);
    } else if op == RFETCH {
      ApartPopped(bd, c.s.ret, j.s.ret, d, a, k, n);
    } else {
      FreeTwins(bd, op, c, j, d, a, k, n);
    }
  }

  lemma {:induction false} FreeTwins(bd: Board, op: nat, c: Cpu, j: Cpu, d: nat, a: u32, k: Rets, n: nat)
    requires bd.Valid() && Twins(bd, c, j, d, a, k, n) && !UsesRets(op)
    ensures Twins(bd, c.(s := Uop(bd, op, c.s)), j.(s := Uop(bd, op, j.s)), d, a, k, n)
  {
    hide Apart, Uop;
    RetFree(bd, op, j.s, c.s.ret);
    RetFree(bd, op, j.s, j.s.ret);
    assert j.s.(ret := j.s.ret) == j.s;
  }

  /** The top item, if it is the word's own, may be anything. */
  lemma {:induction false} ApartTop(bd: Board, c: Rets, j: Rets, d: nat, a: u32, k: Rets, n: nat, x: u32)
    requires bd.Valid() && Apart(bd, c, j, d, a, k, n) && d > 0
    ensures c.r == j.r && Apart(bd, c.(r := x), j.(r := x), d, a, k, n)
  {
    FrameTop(bd, c);
    FrameTop(bd, j);
    assert Frame(bd, c, 0) == Frame(bd, j, 0);
    forall i: nat | 0 < i <= bd.capacity
      ensures Frame(bd, c.(r := x), i) == Frame(bd, c, i) && Frame(bd, j.(r := x), i) == Frame(bd, j, i)
    {}
  }

  lemma {:induction false} BranchTwins(bd: Board, inst: nat, c: Cpu, j: Cpu, d: nat, a: u32, k: Rets, n: nat, most: nat)
    requires bd.Valid() && Twins(bd, c, j, d, a, k, n) && Fair(Wide(inst), j, d, most) && most + n + 1 <= bd.capacity
    ensures Twins(bd, BranchEffect(bd, inst, c), BranchEffect(bd, inst, j), d + Deeper(Wide(inst), j), a, k, n)
  {
    hide Apart, RDrop, RDup;
    var op := inst / 0x200 % 16;
    if op == RCALL {
      ApartPushed(bd, c.s.ret, j.s.ret, d, a, k, n, c.pc);
    } else if op == NEXT {
      var r := CountDown(j.s.ret).r;
      ApartTop(bd, c.s.ret, j.s.ret, d, a, k, n, r);
      ApartPopped(bd, CountDown(c.s.ret), CountDown(j.s.ret), d, a, k, n);
    } else {
      assert op == ZBRAN || op == BRAN || op == PBRAN;
    }
  }

  /** An act of the word's own keeps the two alike. */
  lemma {:induction false} ActTwins(bd: Board, wide: (nat, Cpu) -> Cpu, act: Act, c: Cpu, j: Cpu, d: nat, a: u32, k: Rets,
                                    n: nat, most: nat)
    requires bd.Valid() && Twins(bd, c, j, d, a, k, n) && Fair(act, j, d, most) && most + n + 1 <= bd.capacity
    ensures Twins(bd, Effect(bd, wide, act, c), Effect(bd, wide, act, j), d + Deeper(act, j), a, k, n)
    ensures Effect(bd, wide, act, j) == Effect(bd, Unmodelled, act, j)
  {
    hide Apart, Uop;
    match act {
      case Op(op) => OpTwins(bd, op, c, j, d, a, k, n, most);
      case Push(x) =>
      case Call(to) => ApartPushed(bd, c.s.ret, j.s.ret, d, a, k, n, c.pc);
      case Jump(to) =>
      case Ret => ApartPopped(bd, c.s.ret, j.s.ret, d, a, k, n);
      case Wide(inst) => BranchTwins(bd, inst, c, j, d, a, k, n, most);
    }
  }

  /** So do balanced acts, calls and returns among them. */
  lemma {:induction false} ActsTwins(bd: Board, wide: (nat, Cpu) -> Cpu, acts: seq<Act>, c: Cpu, j: Cpu, d: int, a: u32, k: Rets,
                                     n: nat, most: nat)
    requires bd.Valid() && Twins(bd, c, j, d, a, k, n) && FairActs(bd, acts, j, d, most) && most + n + 1 <= bd.capacity
    requires RunActs(Effects(bd, wide), acts, j).s.ior == 0
    ensures Twins(bd, RunActs(Effects(bd, wide), acts, c), RunActs(Effects(bd, wide), acts, j), DepthAfter(bd, acts, j, d), a, k, n)
  {
    hide Apart, Uop;
    if acts == [] || j.s.ior != 0 {
    } else {
      ActTwins(bd, wide, acts[0], c, j, d, a, k, n, most);
      ActsTwins(bd, wide, acts[1..], Effect(bd, wide, acts[0], c), Effect(bd, wide, acts[0], j), d + Deeper(acts[0], j), a, k, n,
                most);
    }
  }

  // ---- a called word runs as one jumped to -------------------------------------------------------

  /** The acts of the instruction the machine comes to, and the machine just past it. */
  function NextActs(m: Cpu): seq<Act> {
    ActsOf1(Half(m.s.mem, m.pc), m.pfx)
  }

  function Past(m: Cpu): Cpu {
    m.(pc := (m.pc + 1) % B)
  }

  /** t instructions from m, at depth d, that succeed, use the word's own items and come back to depth 0. */
  ghost predicate Inside(bd: Board, wide: (nat, Cpu) -> Cpu, m: Cpu, t: nat, d: int, most: nat)
    requires bd.Valid()
    decreases t
  {
    && m.s.ior == 0 && (t == 0 ==> d == 0)
    && (t > 0 ==>
         && FairActs(bd, NextActs(m), Past(m), d, most)
         && Inside(bd, wide, Step(Effects(bd, wide), m), t - 1, DepthAfter(bd, NextActs(m), Past(m), d), most))
  }

  lemma {:induction false} StepTwins(bd: Board, wide: (nat, Cpu) -> Cpu, c: Cpu, j: Cpu, d: int, a: u32, k: Rets, n: nat, most: nat)
    requires bd.Valid() && Twins(bd, c, j, d, a, k, n) && FairActs(bd, NextActs(j), Past(j), d, most) && most + n + 1 <= bd.capacity
    requires Step(Effects(bd, wide), j).s.ior == 0 && j.s.ior == 0
    ensures Twins(bd, Step(Effects(bd, wide), c), Step(Effects(bd, wide), j), DepthAfter(bd, NextActs(j), Past(j), d), a, k, n)
  {
    hide Apart, Uop, Half, RunActs, PfxOf1, DepthAfter, FairActs, BranchEffect;
    var inst := Half(j.s.mem, j.pc);
    if IsWide(inst) {
      assert NextActs(j) == [Wide(inst)];
      RunOne(Effects(bd, wide), Wide(inst), Past(j));
      RunOne(Effects(bd, wide), Wide(inst), Past(c));
    }
    ActsTwins(bd, wide, NextActs(j), Past(c), Past(j), d, a, k, n, most);
  }

  lemma {:induction false} InsideTwins(bd: Board, wide: (nat, Cpu) -> Cpu, c: Cpu, j: Cpu, t: nat, d: int, a: u32, k: Rets,
                                       n: nat, most: nat)
    requires bd.Valid() && Twins(bd, c, j, d, a, k, n) && Inside(bd, wide, j, t, d, most) && most + n + 1 <= bd.capacity
    ensures Twins(bd, Steps(Effects(bd, wide), c, t), Steps(Effects(bd, wide), j, t), 0, a, k, n)
    ensures Steps(Effects(bd, wide), j, t).s.ior == 0
    decreases t
  {
    hide Apart, Step, NextActs, FairActs, DepthAfter;
    if t == 0 {
    } else {
      var f := Effects(bd, wide);
      StepTwins(bd, wide, c, j, d, a, k, n, most);
      InsideTwins(bd, wide, Step(f, c), Step(f, j), t - 1, DepthAfter(bd, NextActs(j), Past(j), d), a, k, n, most);
    }
  }

  /** The machine comes to a group that returns and leaves the return stack alone otherwise. */
  predicate AtReturn(m: Cpu) {
    IsGroup(Half(m.s.mem, m.pc)) && Returns(Half(m.s.mem, m.pc)) && RetFreeActs(Live(Slots(Half(m.s.mem, m.pc))))
  }

  lemma {:induction false} ReturnStep(bd: Board, wide: (nat, Cpu) -> Cpu, m: Cpu, live: seq<Act>)
    requires bd.Valid() && m.s.ior == 0 && AtReturn(m) && live == Live(Slots(Half(m.s.mem, m.pc)))
    ensures Step(Effects(bd, wide), m) ==
            Cpu(RunPlain(PlainEffects(bd), live, m.s).(ret := RDrop(bd, m.s.ret)), m.s.ret.r, m.pfx)
  {
    hide Slots, Live, Half, RDrop;
    var f, m1 := Effects(bd, wide), m.(pc := (m.pc + 1) % B);
    var back := Effect(bd, wide, Ret, m1);
    RunConcat(f, [Ret], live, m1);
    RunOne(f, Ret, m1);
    PlainRuns(bd, wide, live, back);
    RunRetFree(bd, live, m.s, back.s.ret);
  }

  /**
   * A call whose word returns to a return, and a jump, end alike: whatever the
   * word does, calls included, if it keeps to its own return stack items and
   * returns, both are at the caller's return address in the same state. Of
   * the return stack only cells above its top may differ, and those as deep
   * as the word was.
   */
  lemma {:induction false} TailCall(bd: Board, wide: (nat, Cpu) -> Cpu, to: u32, m: Cpu, t: nat, most: nat, n: nat,
                                    called: Cpu, jumped: Cpu)
    requires bd.Valid() && m.s.ret.rsp < bd.capacity && most + n + 1 <= bd.capacity && n > 0
    requires called == Effect(bd, wide, Call(to), m) && jumped == Effect(bd, wide, Jump(to), m)
    requires Inside(bd, wide, jumped, t, 0, most) && AtReturn(Steps(Effects(bd, wide), jumped, t))
    requires var end := Steps(Effects(bd, wide), jumped, t + 1);
             end.s.ior == 0 && ActsOf1(Half(end.s.mem, m.pc), end.pfx) == [Ret]
    ensures var c, j := Steps(Effects(bd, wide), called, t + 2), Steps(Effects(bd, wide), jumped, t + 1);
            && c.pc == j.pc == m.s.ret.r && c.pfx == j.pfx && c.s == j.s.(ret := c.s.ret)
            && c.s.ret.rsp == j.s.ret.rsp == RDrop(bd, m.s.ret).rsp
            && forall i: nat :: i < n ==> Frame(bd, c.s.ret, i) == Frame(bd, j.s.ret, i) == Frame(bd, m.s.ret, i + 1)
  {
    hide Twins, Inside, AtReturn, Frame;
    var f, k := Effects(bd, wide), m.s.ret;
    Entered(bd, wide, to, m, n);
    InsideTwins(bd, wide, called, jumped, t, 0, m.pc, k, n, most);
    StepsConcat(f, called, t, 2);
    StepsConcat(f, jumped, t, 1);
    Returned(bd, wide, Steps(f, called, t), Steps(f, jumped, t), m.pc, k, n);
  }

  lemma {:induction false} Entered(bd: Board, wide: (nat, Cpu) -> Cpu, to: u32, m: Cpu, n: nat)
    requires bd.Valid() && m.s.ret.rsp < bd.capacity && n + 1 <= bd.capacity
    ensures Twins(bd, Effect(bd, wide, Call(to), m), Effect(bd, wide, Jump(to), m), 0, m.pc, m.s.ret, n)
  {
    hide Frame;
    var k := m.s.ret;
    var c := RDup(bd, k).(r := m.pc);
    FrameTop(bd, c);
    forall i: nat | i <= n ensures Frame(bd, c, 0 + 1 + i) == Frame(bd, k, i) {
      FramePushed(bd, k, m.pc, i);
    }
    FramePushed(bd, k, m.pc, 0);
  }

  /** A word jumped to, that keeps to its own items and returns, is back at its caller's caller. */
  lemma {:induction false} JumpedReturns(bd: Board, wide: (nat, Cpu) -> Cpu, m: Cpu, t: nat, most: nat, n: nat)
    requires bd.Valid() && m.s.ret.rsp < bd.capacity && most + n + 1 <= bd.capacity && n > 0
    requires Inside(bd, wide, m, t, 0, most) && AtReturn(Steps(Effects(bd, wide), m, t))
    ensures var j := Steps(Effects(bd, wide), m, t + 1);
            && j.pc == m.s.ret.r && j.s.ret.rsp == RDrop(bd, m.s.ret).rsp
            && forall i: nat :: i < n ==> Frame(bd, j.s.ret, i) == Frame(bd, m.s.ret, i + 1)
  {
    hide Twins, Inside, AtReturn, Frame;
    Entered(bd, wide, m.pc, m, n);
    InsideTwins(bd, wide, Effect(bd, wide, Call(m.pc), m), m, t, 0, m.pc, m.s.ret, n, most);
    StepsConcat(Effects(bd, wide), m, t, 1);
    BackFrom(bd, wide, Steps(Effects(bd, wide), Effect(bd, wide, Call(m.pc), m), t), Steps(Effects(bd, wide), m, t), m.pc, m.s.ret, n);
  }

  lemma {:induction false} BackFrom(bd: Board, wide: (nat, Cpu) -> Cpu, c: Cpu, j: Cpu, a: u32, k: Rets, n: nat)
    requires bd.Valid() && Twins(bd, c, j, 0, a, k, n) && AtReturn(j) && j.s.ior == 0 && n > 0
    ensures var j' := Steps(Effects(bd, wide), j, 1);
            && j'.pc == k.r && j'.s.ret.rsp == RDrop(bd, k).rsp
            && forall i: nat :: i < n ==> Frame(bd, j'.s.ret, i) == Frame(bd, k, i + 1)
  {
    hide Step, Half, RunPlain, Slots, Live, Frame;
    var f, live := Effects(bd, wide), Live(Slots(Half(j.s.mem, j.pc)));
    ReturnStep(bd, wide, j, live);
    var j1 := Step(f, j);
    assert Steps(f, j, 1) == j1 by { assert Steps(f, j1, 0) == j1; }
    RestPopped(bd, c.s.ret, j.s.ret, a, k, n);
  }

  /** The word returns: the jumped one to the caller, the called one to a return there. */
  lemma {:induction false} Returned(bd: Board, wide: (nat, Cpu) -> Cpu, c: Cpu, j: Cpu, a: u32, k: Rets, n: nat)
    requires bd.Valid() && Twins(bd, c, j, 0, a, k, n) && AtReturn(j) && j.s.ior == 0 && n > 0
    requires var end := Steps(Effects(bd, wide), j, 1);
             end.s.ior == 0 && ActsOf1(Half(end.s.mem, a), end.pfx) == [Ret]
    ensures var c', j' := Steps(Effects(bd, wide), c, 2), Steps(Effects(bd, wide), j, 1);
            && c'.pc == j'.pc == k.r && c'.pfx == j'.pfx && c'.s == j'.s.(ret := c'.s.ret)
            && c'.s.ret.rsp == j'.s.ret.rsp == RDrop(bd, k).rsp
            && forall i: nat :: i < n ==> Frame(bd, c'.s.ret, i) == Frame(bd, j'.s.ret, i) == Frame(bd, k, i + 1)
  {
    hide Step, Half, RunPlain, Slots, Live, Frame;
    var f, live := Effects(bd, wide), Live(Slots(Half(j.s.mem, j.pc)));
    ReturnStep(bd, wide, j, live);
    ReturnStep(bd, wide, c, live);
    RunRetFree(bd, live, j.s, c.s.ret);
    var c1, j1 := Step(f, c), Step(f, j);
    assert Steps(f, j, 1) == j1 by { assert Steps(f, j1, 0) == j1; }
    FrameTop(bd, c.s.ret);
    assert c1.s.ior == 0 && c1.pc == a;
    PlainReturn(bd, wide, c1);
    assert Steps(f, c, 2) == Step(f, c1) by { assert Steps(f, c1, 1) == Steps(f, Step(f, c1), 0); }
    RestPopped(bd, c.s.ret, j.s.ret, a, k, n);
  }

  lemma {:induction false} PlainReturn(bd: Board, wide: (nat, Cpu) -> Cpu, m: Cpu)
    requires bd.Valid() && m.s.ior == 0 && ActsOf1(Half(m.s.mem, m.pc), m.pfx) == [Ret]
    ensures Step(Effects(bd, wide), m) == Cpu(m.s.(ret := RDrop(bd, m.s.ret)), m.s.ret.r, m.pfx)
  {
    hide Half, Live, Slots, RDrop;
    var f, m1 := Effects(bd, wide), m.(pc := (m.pc + 1) % B);
    RunOne(f, Ret, m1);
  }

  lemma {:induction false} RestPopped(bd: Board, c: Rets, j: Rets, a: u32, k: Rets, n: nat)
    requires bd.Valid() && Apart(bd, c, j, 0, a, k, n) && n > 0
    ensures var c', j' := RDrop(bd, RDrop(bd, c)), RDrop(bd, j);
            && RDrop(bd, c).r == k.r == j.r && c'.rsp == j'.rsp == RDrop(bd, k).rsp
            && forall i: nat :: i < n ==> Frame(bd, c', i) == Frame(bd, j', i) == Frame(bd, k, i + 1)
  {
    hide Frame;
    var c1 := RDrop(bd, c);
    forall i: nat | i <= n ensures Frame(bd, c1, i) == Frame(bd, k, i) && c1.rsp == k.rsp {
      FramePopped(bd, c, i);
      assert Frame(bd, c, 0 + 1 + i) == Frame(bd, k, i);
    }
    FrameTop(bd, c1);
    FrameTop(bd, j);
    FrameTop(bd, k);
    assert Frame(bd, j, 0 + 0) == Frame(bd, k, 0) && Frame(bd, c1, 0) == Frame(bd, k, 0);
    forall i: nat | i < n ensures Frame(bd, RDrop(bd, c1), i) == Frame(bd, RDrop(bd, j), i) == Frame(bd, k, i + 1) {
      FramePopped(bd, c1, i);
      FramePopped(bd, j, i);
      assert Frame(bd, j, 0 + (i + 1)) == Frame(bd, k, i + 1);
    }
    FramePopped(bd, c1, 0);
    FramePopped(bd, j, 0);
    FramePopped(bd, k, 0);
  }
}
