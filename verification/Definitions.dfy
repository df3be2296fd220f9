/**
 * Compiled code does what its source items do: the compiler's packing
 * (src/comp.c) and the interpreter (src/vm.c) taken together.
 */
module Definitions {
  import opened Arithmetic
  import opened Slices
  import opened Vm
  import opened Code
  import opened Returning
  import opened Compiler

  /** A primitive is up to three micro-ops, a literal pushes its value. */
  function ItemEffect(bd: Board, item: Item, s: State): State
    requires bd.Valid()
  {
    match item
    case Primitive(w) =>
      if w / 0x4000_0000 % 2 == 1 then RunOps(Uops(bd), Slots(w), s) else Uop(bd, w / 0x200 % 32, s)
    case Literal(x) => Pushed(bd, s, x)
  }

  /** The items one by one, until an access fails. */
  function RunItems(bd: Board, items: seq<Item>, s: State): State
    requires bd.Valid()
  {
    if items == [] || s.ior != 0 then s else RunItems(bd, items[1..], ItemEffect(bd, items[0], s))
  }

  /** Plain primitives: micro-ops and macros, without unext. */
  predicate PlainItem(item: Item) {
    item.Primitive? ==>
      item.w / 0x2000_0000 % 2 == 0 &&
      if item.w / 0x4000_0000 % 2 == 1 then NoUnext(item.w) else item.w / 0x200 % 32 != UNEXT
  }

  lemma {:induction false} LiveRuns(bd: Board, ops: seq<nat>, s: State)
    requires bd.Valid()
    ensures RunPlain(PlainEffects(bd), Live(ops), s) == RunOps(Uops(bd), ops, s)
  {
    if ops == [] || s.ior != 0 {
    } else {
      LiveRuns(bd, ops[1..], Uop(bd, ops[0], s));
      var rest := Live(ops[1..]);
      if ops[0] != NOP {
        assert ([Op(ops[0])] + rest)[1..] == rest;
      } else {
        assert [] + rest == rest;
      }
    }
  }

  /** A negative literal's complement, inverted, is the literal. */
  lemma {:induction false} LiteralRuns(bd: Board, x: u32, s: State)
    requires bd.Valid() && s.ior == 0
    ensures RunPlain(PlainEffects(bd), LiteralActs(x), s) == Pushed(bd, s, x)
  {
    var f := PlainEffects(bd);
    if x >= 0x8000_0000 {
      var y: u32 := 0xFFFF_FFFF - x;
      var s1 := Pushed(bd, s, y);
      assert [Push(y), Op(INV)][1..] == [Op(INV)] && [Op(INV)][1..] == [];
      assert RunPlain(f, [Push(y), Op(INV)], s) == RunPlain(f, [Op(INV)], s1);
      assert RunPlain(f, [Op(INV)], s1) == Uop(bd, INV, s1) == s1.(t := x);
    } else {
      assert [Push(x)][1..] == [];
    }
  }

  lemma {:induction false} ItemRuns(bd: Board, item: Item, s: State)
    requires bd.Valid() && s.ior == 0 && PlainItem(item)
    ensures RunPlain(PlainEffects(bd), ItemActs1(item), s) == ItemEffect(bd, item, s)
    ensures Plain(ItemActs1(item))
  {
    match item
    case Primitive(w) =>
      if w / 0x4000_0000 % 2 == 1 {
        LiveRuns(bd, Slots(w), s);
        PlainLive(Slots(w));
      } else {
        var ops := [w / 0x200 % 32];
        LiveRuns(bd, ops, s);
        PlainLive(ops);
        assert ops[1..] == [];
      }
    case Literal(x) => LiteralRuns(bd, x, s);
  }

  lemma {:induction false} PlainLive(ops: seq<nat>)
    requires UNEXT !in ops
    ensures Plain(Live(ops))
  {
    if ops == [] {
    } else {
      PlainLive(ops[1..]);
    }
  }

  /** Packing keeps the meaning: the acts compiled for items do what the items do. */
  lemma {:induction false} ItemsRun(bd: Board, items: seq<Item>, s: State)
    requires bd.Valid() && forall i :: i in items ==> PlainItem(i)
    ensures RunPlain(PlainEffects(bd), ItemActs(items), s) == RunItems(bd, items, s)
    ensures Plain(ItemActs(items))
  {
    hide ItemActs1, ItemEffect, PlainEffects, PlainItem;
    if items == [] {
    } else {
      var a, b := ItemActs1(items[0]), ItemActs(items[1..]);
      RunPlainConcat(PlainEffects(bd), a, b, s);
      assert items[0] in items;
      if s.ior == 0 {
        ItemRuns(bd, items[0], s);
        ItemsRun(bd, items[1..], ItemEffect(bd, items[0], s));
      } else {
        ItemRuns(bd, items[0], s.(ior := 0));
        ItemsRun(bd, items[1..], s);
      }
    }
  }

  /** Words that decode to the acts of items, run from the first with prefix 0, do the items. */
  lemma {:induction false} CodeRuns(bd: Board, wide: (nat, Cpu) -> Cpu, items: seq<Item>, m: Cpu, n: nat)
    requires bd.Valid() && (forall i :: i in items ==> PlainItem(i))
    requires m.pc + n < CODE_LIMIT && m.pfx == 0
    requires ActsOf(Words(m.s.mem, m.pc, m.pc + n), 0) == ItemActs(items)
    requires PfxOf(Words(m.s.mem, m.pc, m.pc + n), 0) == 0
    requires Clean(PlainEffects(bd), ItemActs(items), m.s, m.pc, m.pc + n)
    ensures Steps(Effects(bd, wide), m, n) == Cpu(RunItems(bd, items, m.s), m.pc + n, 0)
  {
    ItemsRun(bd, items, m.s);
    StraightLine(bd, wide, m, n, Words(m.s.mem, m.pc, m.pc + n), ItemActs(items));
  }

  /** What is left of a definition's run when its last word returns. */
  function AfterReturn(bd: Board, s: State): Cpu
    requires bd.Valid()
  {
    Cpu(s.(ret := RDrop(bd, s.ret)), s.ret.r, 0)
  }

  lemma {:induction false} LastWord(bd: Board, wide: (nat, Cpu) -> Cpu, m: Cpu, w: nat)
    requires bd.Valid() && m.s.ior == 0 && m.pfx == 0 && m.pc + 1 < CODE_LIMIT
    requires w == Half(m.s.mem, m.pc) && IsGroup(w) && Returns(w) && RetFreeActs(Live(Slots(w)))
    requires RunPlain(PlainEffects(bd), Live(Slots(w)), m.s).ior == 0
    ensures Steps(Effects(bd, wide), m, 1) == AfterReturn(bd, RunPlain(PlainEffects(bd), Live(Slots(w)), m.s))
  {
    var f, g := Effects(bd, wide), Live(Slots(w));
    var m1 := m.(pc := m.pc + 1);
    MergedReturn(bd, wide, g, m1);
    RunConcat(f, g, [Ret], m1);
    RetFreePlain(g);
    PlainRuns(bd, wide, g, m1);
    RunOne(f, Ret, m1.(s := RunPlain(PlainEffects(bd), g, m.s)));
    assert Steps(f, m, 1) == Steps(f, Step(f, m), 0);
  }

  lemma {:induction false} RetFreePlain(acts: seq<Act>)
    requires RetFreeActs(acts)
    ensures Plain(acts)
  {}

  /**
   * A whole definition: what CompExit leaves, entered with prefix 0, does the
   * items and returns to the caller.
   */
  lemma {:induction false} DefinitionRuns(bd: Board, wide: (nat, Cpu) -> Cpu, items: seq<Item>, m: Cpu, n: nat,
                                          code: seq<nat>)
    requires bd.Valid() && (forall i :: i in items ==> PlainItem(i))
    requires m.pc + n < CODE_LIMIT && m.pfx == 0 && code == Words(m.s.mem, m.pc, m.pc + n)
    requires EndsReturning(code, ItemActs(items))
    requires Clean(PlainEffects(bd), ItemActs(items), m.s, m.pc, m.pc + n)
    ensures Steps(Effects(bd, wide), m, n) == AfterReturn(bd, RunItems(bd, items, m.s))
  {
    hide ActsOf1, PfxOf1, Half, PlainEffects, IsGroup, Returns, Slots, Live, Exec, Step, Clean, RunPlain, RunItems, ActsOf, PfxOf, Words, Steps, Plain;
    var f, end, k := PlainEffects(bd), m.pc + n, n - 1;
    WordsLength(m.s.mem, m.pc, end);
    var ws, w := code[..k], code[k];
    var a, g := ActsOf(ws, 0), Live(Slots(w));
    ItemsRun(bd, items, m.s);
    CleanConcat(f, a, g, m.s, m.pc, end);
    RunPlainConcat(f, a, g, m.s);
    var s1 := RunPlain(f, a, m.s);
    CleanRuns(f, g, s1, m.pc, end);
    SplitWords(m.s.mem, m.pc, end);
    SplitWords(s1.mem, m.pc, end);
    CleanPrefix(f, a, g, m.s, m.pc, end);
    PlainParts(a, g);
    StraightLine(bd, wide, m, k, ws, a);
    LastWord(bd, wide, Cpu(s1, m.pc + k, 0), w);
    StepsConcat(Effects(bd, wide), m, k, 1);
  }

  /**
   * A definition compiled and then run: where there is room, the words compiled
   * for the items and the exit, entered from any state that leaves them alone,
   * do what the items do one by one and return to the caller.
   */
  method Define(board: Board, limit: nat, memory: Cells, at: nat, items: seq<Item>,
                ghost wide: (nat, Cpu) -> Cpu, ghost s0: State)
    returns (ior: int, c: Compiler)
    requires board.Valid() && board.Readable() && limit < CELLS && at / 2 < limit
    requires forall i :: i in items ==> PlainItem(i)
    requires Fits(board, limit, at, AllWords(9, items) + 2)
    ensures ior == 0 && at < c.pc <= at + AllWords(9, items) + 2 && c.Code() == Words(c.mem, at, c.pc)
    ensures EndsReturning(c.Code(), ItemActs(items))
    ensures var s := s0.(mem := c.mem);
            Clean(PlainEffects(board), ItemActs(items), s, at, c.pc) ==>
              Steps(Effects(board, wide), Cpu(s, at, 0), c.pc - at) == AfterReturn(board, RunItems(board, items, s))
  {
    hide ActsOf, PfxOf, Slots, Live, PcSlot, ItemActs, EndsReturning, Fits, Clean, PlainEffects, RunItems, Steps;
    c := new Compiler(board, limit, memory, at);
    FitsLess(board, limit, at, AllWords(9, items) + 2, at, AllWords(9, items));
    ior := c.CompileAll(items);
    FitsLess(board, limit, at, AllWords(9, items) + 2, c.pc, c.ExitWords());
    assert [] + ItemActs(items) == ItemActs(items);
    ior := c.CompExit();
    ghost var s := s0.(mem := c.mem);
    if Clean(PlainEffects(board), ItemActs(items), s, at, c.pc) {
      DefinitionRuns(board, wide, items, Cpu(s, at, 0), c.pc - at, c.Code());
    }
  }

  // ---- a definition that ends in a jump ------------------------------------------------------------

  /** Words that do the items and then jump, run from the first with prefix 0. */
  lemma {:induction false} TailRuns(bd: Board, wide: (nat, Cpu) -> Cpu, items: seq<Item>, m: Cpu, n: nat, to: nat)
    requires bd.Valid() && (forall i :: i in items ==> PlainItem(i))
    requires 0 < n && m.pc + n < CODE_LIMIT && m.pfx == 0 && to < 0x2000
    requires var ws := Words(m.s.mem, m.pc, m.pc + (n - 1)); ActsOf(ws, 0) == ItemActs(items) && PfxOf(ws, 0) == 0
    requires Half(m.s.mem, m.pc + (n - 1)) == to
    requires Clean(PlainEffects(bd), ItemActs(items), m.s, m.pc, m.pc + n)
    ensures Steps(Effects(bd, wide), m, n) == Cpu(RunItems(bd, items, m.s), to, 0)
  {
    hide ActsOf, PfxOf, Half, PlainEffects, Exec, RunItems, ActsOf1, PfxOf1, Clean, Words, ItemActs, RunPlain;
    var f, k, end, a := Effects(bd, wide), n - 1, m.pc + n, ItemActs(items);
    assert a + [] == a;
    CleanPrefix(PlainEffects(bd), a, [], m.s, m.pc, end);
    CodeRuns(bd, wide, items, m, k);
    CleanConcat(PlainEffects(bd), a, [], m.s, m.pc, end);
    ItemsRun(bd, items, m.s);
    var s1 := RunItems(bd, items, m.s);
    SplitWords(m.s.mem, m.pc, end);
    SplitWords(s1.mem, m.pc, end);
    StepsConcat(f, m, k, 1);
    JumpStep(bd, wide, Cpu(s1, m.pc + k, 0), to);
  }

  lemma {:induction false} JumpStep(bd: Board, wide: (nat, Cpu) -> Cpu, m: Cpu, to: nat)
    requires bd.Valid() && m.s.ior == 0 && m.pfx == 0 && m.pc + 1 < CODE_LIMIT && Half(m.s.mem, m.pc) == to < 0x2000
    ensures Steps(Effects(bd, wide), m, 1) == Cpu(m.s, to, 0)
  {
    hide ActsOf1, PfxOf1, Half, IsWide;
    var f, m1 := Effects(bd, wide), m.(pc := m.pc + 1);
    JumpWord(to, 0);
    NoWide(to);
    RunOne(f, Jump(to), m1);
    assert Immediate(to, 0) == to;
    assert Steps(f, m, 1) == Steps(f, Step(f, m), 0);
  }

  lemma {:induction false} NoWide(w: nat)
    requires w < 0x2000
    ensures !IsWide(w)
  {
    assert w / 0x2000 == 0;
  }

  /**
   * A definition that ends in a call, compiled and run: `;` has made it a jump,
   * and what is in memory does the items and goes into the word with the
   * caller's return stack. If the word, with calls, branches and return stack
   * items of its own, returns from there, it is back at the caller.
   */
  method DefineTail(board: Board, limit: nat, memory: Cells, at: nat, items: seq<Item>, to: nat,
                    ghost wide: (nat, Cpu) -> Cpu, ghost s0: State)
    returns (ior: int, c: Compiler)
    requires board.Valid() && board.Readable() && limit < CELLS && at / 2 < limit && to < 0x2000
    requires forall i :: i in items ==> PlainItem(i)
    requires Fits(board, limit, at, AllWords(9, items) + 2)
    ensures ior == 0 && at < c.pc <= at + AllWords(9, items) + 2
    ensures var s := s0.(mem := c.mem);
            Clean(PlainEffects(board), ItemActs(items), s, at, c.pc) ==>
              var j := Cpu(RunItems(board, items, s), to, 0);
              && Steps(Effects(board, wide), Cpu(s, at, 0), c.pc - at) == j
              && forall t: nat, most: nat, n: nat :: ReturnsInside(board, wide, j, t, most, n) ==>
                   CameBack(board, Steps(Effects(board, wide), Cpu(s, at, 0), c.pc - at + (t + 1)), j.s.ret, n)
  {
    hide ActsOf, PfxOf, ItemActs, Fits, Clean, PlainEffects, RunItems, Steps, Half, Words, ReturnsInside, CameBack;
    ior, c := CompileTail(board, limit, memory, at, items, to);
    ghost var s := s0.(mem := c.mem);
    if Clean(PlainEffects(board), ItemActs(items), s, at, c.pc) {
      TailRuns(board, wide, items, Cpu(s, at, 0), c.pc - at, to);
      ComesBack(board, wide, Cpu(s, at, 0), c.pc - at, Cpu(RunItems(board, items, s), to, 0));
    }
  }

  /** The items, the call and the exit compiled: words that do the items, and a jump. */
  method CompileTail(board: Board, limit: nat, memory: Cells, at: nat, items: seq<Item>, to: nat) returns (ior: int, c: Compiler)
    requires board.Valid() && board.Readable() && limit < CELLS && at / 2 < limit && to < 0x2000
    requires forall i :: i in items ==> PlainItem(i)
    requires Fits(board, limit, at, AllWords(9, items) + 2)
    ensures ior == 0 && at < c.pc <= at + AllWords(9, items) + 2 && c.pc < CODE_LIMIT
    ensures Half(c.mem, c.pc - 1) == to
    ensures var ws := Words(c.mem, at, c.pc - 1); ActsOf(ws, 0) == ItemActs(items) && PfxOf(ws, 0) == 0
  {
    hide ActsOf, PfxOf, ActsOf1, PfxOf1, Slots, Live, PcSlot, ItemActs, Fits, Half, Words;
    c := new Compiler(board, limit, memory, at);
    FitsLess(board, limit, at, AllWords(9, items) + 2, at, AllWords(9, items));
    ior := c.CompileAll(items);
    assert [] + ItemActs(items) == ItemActs(items);
    FitsLess(board, limit, at, AllWords(9, items) + 2, c.pc, Flushed(c.slot) + 1);
    ghost var flushed;
    ior, flushed := c.CompTailCall(to);
    SplitWords(c.mem, at, c.pc);
  }

  /** From j the word returns after t instructions that keep to its own return stack items. */
  ghost predicate ReturnsInside(bd: Board, wide: (nat, Cpu) -> Cpu, j: Cpu, t: nat, most: nat, n: nat)
    requires bd.Valid()
  {
    && j.s.ret.rsp < bd.capacity && most + n + 1 <= bd.capacity && n > 0
    && Inside(bd, wide, j, t, 0, most) && AtReturn(Steps(Effects(bd, wide), j, t))
  }

  /** The machine is at the return address on top of k, with the rest of it, n items deep, as it was. */
  ghost predicate CameBack(bd: Board, m: Cpu, k: Rets, n: nat)
    requires bd.Valid()
  {
    && m.pc == k.r && m.s.ret.rsp == RDrop(bd, k).rsp
    && n <= bd.capacity && forall i: nat :: i < n && i < bd.capacity ==> Frame(bd, m.s.ret, i) == Frame(bd, k, i + 1)
  }

  lemma {:induction false} ComesBack(bd: Board, wide: (nat, Cpu) -> Cpu, m: Cpu, n: nat, j: Cpu)
    requires bd.Valid() && Steps(Effects(bd, wide), m, n) == j
    ensures forall t: nat, most: nat, d: nat :: ReturnsInside(bd, wide, j, t, most, d) ==>
              CameBack(bd, Steps(Effects(bd, wide), m, n + (t + 1)), j.s.ret, d)
  {
    hide Steps, Inside, AtReturn, Frame;
    forall t: nat, most: nat, d: nat | ReturnsInside(bd, wide, j, t, most, d)
      ensures CameBack(bd, Steps(Effects(bd, wide), m, n + (t + 1)), j.s.ret, d)
    {
      JumpedReturns(bd, wide, j, t, most, d);
      StepsConcat(Effects(bd, wide), m, n, t + 1);
    }
  }

  lemma {:induction false} PlainParts(a: seq<Act>, g: seq<Act>)
    requires Plain(a + g)
    ensures Plain(a)
  {
    forall x | x in a ensures x in a + g {}
  }

  lemma {:induction false} WordsLength(m: Cells, from: nat, end: nat)
    requires from <= end
    ensures |Words(m, from, end)| == end - from
    decreases end - from
  {
    if from >= end {
    } else {
      WordsLength(m, from + 1, end);
    }
  }

  lemma {:induction false} SplitWords(m: Cells, from: nat, end: nat)
    requires from < end
    ensures var ws := Words(m, from, end);
            |ws| == end - from && ws[..|ws| - 1] == Words(m, from, end - 1) && ws[|ws| - 1] == Half(m, end - 1)
  {
    WordsLength(m, from, end);
    WordsMore(m, from, end - 1);
  }

  lemma {:induction false} CleanRuns(f: StateMeaning, acts: seq<Act>, s: State, from: nat, end: nat)
    requires Clean(f, acts, s, from, end)
    ensures RunPlain(f, acts, s).ior == 0
  {
    if acts == [] {
    } else {
      CleanRuns(f, acts[1..], f(acts[0], s), from, end);
    }
  }

  /** A run that keeps code to `end` keeps its first part up to the word before. */
  lemma {:induction false} CleanPrefix(f: StateMeaning, a: seq<Act>, b: seq<Act>, s: State, from: nat, end: nat)
    requires from < end && Clean(f, a + b, s, from, end)
    ensures Clean(f, a, s, from, end - 1)
  {
    if a != [] {
      assert (a + b)[1..] == a[1..] + b;
      SplitWords(s.mem, from, end);
      SplitWords(f(a[0], s).mem, from, end);
      CleanPrefix(f, a[1..], b, f(a[0], s), from, end);
    } else {
      assert a + b == b;
    }
  }
}
