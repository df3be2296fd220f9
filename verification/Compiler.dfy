/**
 * The compiler (src/comp.c): micro-ops packed into groups, literals as prefix
 * chains, calls, and returns merged into a group or made a jump. What has been
 * compiled is described by the acts its words decode to.
 */
module Compiler {
  import opened Arithmetic
  import opened Slices
  import opened Vm
  import opened Code
  import opened Returning

  const ERR_DICTIONARY_OVERFLOW: int := -8

  const GROUP: nat := 0x8000
  const RET: nat := 0x4000
  const CALL: nat := 0x2000
  const LIT: nat := 0x4000
  const PFX: nat := 0x7800          // pfx1 is 0x200 more

  // ---- slots ------------------------------------------------------------------------------

  /** A micro-op put in the slot at bit 9, 4 or 0. */
  function Placed(instruction: nat, uop: nat, slot: int): nat {
    instruction + uop * (if slot == 9 then 0x200 else if slot == 4 then 0x10 else 1)
  }

  /** The slots from `slot` down are empty. */
  predicate Empty(instruction: nat, slot: int) {
    match slot
    case 9 => instruction == 0
    case 4 => instruction < RET && instruction % 0x200 == 0
    case 0 => instruction < RET && instruction % 0x10 == 0
    case -1 => instruction < RET && instruction % 0x10 == 0
    case _ => instruction < RET && slot == -5
  }

  lemma {:induction false} PlacedSlots(instruction: nat, uop: nat, slot: int)
    requires Empty(instruction, slot) && slot >= 0 && uop < 32 && (slot == 0 ==> uop < 16)
    ensures Slots(Placed(instruction, uop, slot)) ==
            if slot == 9 then [uop, 0, 0] else if slot == 4 then [Slots(instruction)[0], uop, 0]
            else [Slots(instruction)[0], Slots(instruction)[1], uop]
    ensures Slots(instruction)[2] == 0 && (slot > 0 ==> Slots(instruction)[1] == 0) && (slot == 9 ==> Slots(instruction)[0] == 0)
    ensures Empty(Placed(instruction, uop, slot), slot - 5)
  {
    if slot == 9 {
      PlacedFirst(uop);
    } else if slot == 4 {
      PlacedMiddle(instruction / 0x200, uop);
    } else {
      PlacedLast(instruction / 0x10, uop);
    }
  }

  lemma {:induction false} PlacedFirst(uop: nat)
    requires uop < 32
    ensures uop * 0x200 / 0x200 == uop && uop * 0x200 / 0x10 % 32 == 0 && uop * 0x200 % 16 == 0 && uop * 0x200 < RET
  {
    assert uop * 0x200 / 0x10 == uop * 32;
  }

  lemma {:induction false} PlacedMiddle(k: nat, uop: nat)
    requires uop < 32
    ensures (k * 0x200 + uop * 0x10) / 0x200 == k && (k * 0x200 + uop * 0x10) / 0x10 % 32 == uop
    ensures (k * 0x200 + uop * 0x10) % 16 == 0
  {
    var x := k * 32 + uop;
    assert k * 0x200 + uop * 0x10 == x * 0x10 && x * 0x10 / 0x10 == x;
    assert x * 0x10 / 0x200 == x / 32 == k;
  }

  lemma {:induction false} PlacedLast(k: nat, uop: nat)
    requires uop < 16
    ensures (k * 0x10 + uop) / 0x200 == k * 0x10 / 0x200 && (k * 0x10 + uop) / 0x10 == k
    ensures (k * 0x10 + uop) % 16 == uop
  {}

  lemma {:induction false} Live3(a: nat, b: nat, c: nat)
    ensures Live([a, b, c]) == Live([a]) + Live([b]) + Live([c]) && Live([0]) == []
  {
    assert [a, b, c][1..] == [b, c] && [b, c][1..] == [c] && [c][1..] == [] && [a][1..] == [] && [b][1..] == [];
  }

  /** Placing a micro-op adds it to the acts of the group. */
  lemma {:induction false} PlacedActs(instruction: nat, uop: nat, slot: int)
    requires Empty(instruction, slot) && slot >= 0 && uop < 32 && (slot == 0 ==> uop < 16)
    ensures Live(Slots(Placed(instruction, uop, slot))) == Live(Slots(instruction)) + Live([uop])
    ensures Empty(Placed(instruction, uop, slot), slot - 5)
  {
    PlacedSlots(instruction, uop, slot);
    var s, t := Slots(instruction), Slots(Placed(instruction, uop, slot));
    Live3(s[0], s[1], s[2]);
    Live3(t[0], t[1], t[2]);
  }

  /** The group bit is not in the slots. */
  lemma {:induction false} GroupWord(instruction: nat)
    requires instruction < GROUP
    ensures Slots(GROUP + instruction) == Slots(instruction) && IsGroup(GROUP + instruction)
    ensures Returns(GROUP + instruction) <==> instruction >= RET
  {
    HighBits(instruction, 64, 0x800);
    assert 0x8000 <= GROUP + instruction < 0x1_0000;
  }

  lemma {:induction false} HighBits(i: nat, j: nat, k: nat)
    requires j * 0x200 == k * 0x10 && j % 32 == 0
    ensures Slots(j * 0x200 + i) == Slots(i)
  {
    assert (j * 0x200 + i) / 0x200 == j + i / 0x200;
    assert (k * 0x10 + i) / 0x10 == k + i / 0x10;
    AddMultiple(i / 0x200, j / 32);
    AddMultiple(i / 0x10, j);
    assert k == 32 * j;
    assert (k * 0x10 + i) % 16 == i % 16;
  }

  lemma {:induction false} AddMultiple(x: nat, n: nat)
    ensures (32 * n + x) % 32 == x % 32
  {}

  lemma {:induction false} RetBit(instruction: nat)
    requires instruction < RET
    ensures Slots(RET + instruction) == Slots(instruction)
  {
    HighBits(instruction, 32, 0x400);
  }

  // ---- literals ------------------------------------------------------------------------------

  /** The prefix words that load y, high bits first. */
  function Prefixes(y: nat): seq<u32> {
    if y == 0 then [] else Prefixes(y / 0x400) + [PFX + y % 0x400]
  }

  lemma {:induction false} PrefixWord(v: nat, pfx: u32)
    requires v < 0x400
    ensures ActsOf1(PFX + v, pfx) == [] && PfxOf1(PFX + v, pfx) == (pfx * 0x400 + v) % B
  {
    var w := PFX + v;
    assert w / 0x2000 == 3;
    assert w / 0x200 == 60 + v / 0x200;
    assert w % 0x200 == v % 0x200;
  }

  lemma {:induction false} PrefixesLoad(y: u32)
    ensures ActsOf(Prefixes(y), 0) == [] && PfxOf(Prefixes(y), 0) == y
  {
    if y == 0 {
    } else {
      hide ActsOf, PfxOf, ActsOf1, PfxOf1;
      var high, v := y / 0x400, y % 0x400;
      PrefixesLoad(high);
      ActsOfConcat(Prefixes(high), [PFX + v], 0);
      OneWord(PFX + v, high);
      PrefixWord(v, high);
      HighLow(y);
      assert Prefixes(y) == Prefixes(high) + [PFX + v];
      assert [] + ActsOf([PFX + v], high) == ActsOf([PFX + v], high);
    }
  }

  lemma {:induction false} HighLow(y: u32)
    ensures (y / 0x400 * 0x400 + y % 0x400) % B == y
  {
    assert y / 0x400 * 0x400 + y % 0x400 == y;
  }

  lemma {:induction false} OneWord(w: nat, pfx: u32)
    ensures ActsOf([w], pfx) == ActsOf1(w, pfx) && PfxOf([w], pfx) == PfxOf1(w, pfx)
  {
    assert [w][1..] == [];
    assert ActsOf1(w, pfx) + [] == ActsOf1(w, pfx);
  }

  /** A 32-bit literal: at most two prefixes, then the low 13 bits. */
  function LitWords(x: u32): seq<u32> {
    Prefixes(x / 0x2000) + [LIT + x % 0x2000]
  }

  lemma {:induction false} LitWord(x: u32)
    ensures ActsOf1(LIT + x % 0x2000, x / 0x2000) == [Push(x)] && PfxOf1(LIT + x % 0x2000, x / 0x2000) == 0
  {
    var w := LIT + x % 0x2000;
    assert w / 0x2000 == 2 && w % 0x2000 == x % 0x2000;
    assert w / 0x8000 == 0;
  }

  /** From prefix 0 the words push x and leave prefix 0. */
  lemma {:induction false} LiteralRoundTrip(x: u32)
    ensures ActsOf(LitWords(x), 0) == [Push(x)] && PfxOf(LitWords(x), 0) == 0 && |LitWords(x)| <= 3
  {
    var y, w := x / 0x2000, LIT + x % 0x2000;
    PrefixesLoad(y);
    ActsOfConcat(Prefixes(y), [w], 0);
    OneWord(w, y);
    LitWord(x);
    TwoPrefixes(y);
  }

  lemma {:induction false} TwoPrefixes(y: nat)
    requires y < 0x10_0000
    ensures |Prefixes(y)| <= 2
  {
    assert y / 0x400 / 0x400 == 0;
    assert Prefixes(y / 0x400 / 0x400) == [];
  }

  // ---- code memory -------------------------------------------------------------------------

  lemma {:induction false} WordsSame(m: Cells, m': Cells, from: nat, end: nat)
    requires forall q :: from <= q < end ==> Half(m', q) == Half(m, q)
    ensures Words(m', from, end) == Words(m, from, end)
    decreases end - from
  {
    if from >= end {
    } else {
      WordsSame(m, m', from + 1, end);
    }
  }

  lemma {:induction false} WordsMore(m: Cells, from: nat, end: nat)
    requires from <= end
    ensures Words(m, from, end + 1) == Words(m, from, end) + [Half(m, end)]
    decreases end - from
  {
    if from < end {
      WordsMore(m, from + 1, end);
    } else {
      assert Words(m, end + 1, end + 1) == [];
    }
  }

  lemma {:induction false} StoredWord(bd: Board, m: Cells, from: nat, pc: nat, x: u32, m': Cells)
    requires from <= pc < CODE_LIMIT && Store(bd, m, PcSlot(pc), x) == (0, m')
    ensures Words(m', from, pc) == Words(m, from, pc)
    ensures Words(m', from, pc + 1) == Words(m, from, pc) + [x % 0x1_0000]
    ensures Half(m', pc) == x % 0x1_0000 && bd.writeIor(pc / 2) == 0
  {
    SlotParts(pc);
    forall q ensures Half(m', q) == if q == pc then x % 0x1_0000 else Half(m, q) {
      SlotIsHalf(bd, m, pc, x, q);
    }
    WordsSame(m, m', from, pc);
    WordsMore(m', from, pc);
  }

  lemma {:induction false} StoreIor(bd: Board, m: Cells, pc: nat, x: u32)
    requires pc < CODE_LIMIT
    ensures Store(bd, m, PcSlot(pc), x).0 == bd.writeIor(pc / 2)
  {
    SlotParts(pc);
  }

  lemma {:induction false} Advance(pc: nat, cpMax: nat)
    requires pc / 2 < cpMax < CELLS
    ensures pc + 1 < CODE_LIMIT && FieldPlus(PcSlot(pc)) == PcSlot(pc + 1)
    ensures CellOf(PcSlot(pc + 1)) == (pc + 1) / 2
  {
    NextSlot(pc);
    SlotParts(pc + 1);
  }

  lemma {:induction false} AppendWord(code: seq<nat>, w: nat)
    requires PfxOf(code, 0) == 0
    ensures ActsOf(code + [w], 0) == ActsOf(code, 0) + ActsOf1(w, 0)
    ensures PfxOf(code + [w], 0) == PfxOf1(w, 0)
  {
    ActsOfConcat(code, [w], 0);
    OneWord(w, 0);
  }

  /** A flushed group does its acts. */
  lemma {:induction false} AppendGroup(code: seq<nat>, instruction: nat)
    requires PfxOf(code, 0) == 0 && instruction < GROUP
    ensures ActsOf(code + [GROUP + instruction], 0) ==
            ActsOf(code, 0) + (if instruction < RET then [] else [Ret]) + Live(Slots(instruction))
    ensures PfxOf(code + [GROUP + instruction], 0) == 0
  {
    hide *;
    AppendWord(code, GROUP + instruction);
    GroupActs(instruction, 0);
    var acts, ret := ActsOf(code, 0), if instruction < RET then [] else [Ret];
    assert acts + (ret + Live(Slots(instruction))) == acts + ret + Live(Slots(instruction));
  }

  lemma {:induction false} GroupActs(instruction: nat, pfx: u32)
    requires instruction < GROUP
    ensures ActsOf1(GROUP + instruction, pfx) == (if instruction < RET then [] else [Ret]) + Live(Slots(instruction))
    ensures PfxOf1(GROUP + instruction, pfx) == pfx
  {
    GroupWord(instruction);
  }

  lemma {:induction false} NoReturn(a: seq<Act>, b: seq<Act>)
    ensures a + [] + b == a + b
  {
    assert a + [] == a;
  }

  lemma {:induction false} NoSlots()
    ensures Live(Slots(0)) == []
  {
    Live3(0, 0, 0);
  }

  // ---- the words of a literal on the data stack --------------------------------------------------

  function Above(p: nat, j: nat, capacity: nat): nat {
    if p + j < capacity then p + j else p + j - capacity
  }

  predicate Near(p: nat, capacity: nat, c: nat)
    requires capacity >= 32 && p < capacity
  {
    exists j :: 1 <= j <= 4 && c == Above(p, j, capacity)
  }

  /** The words of ws, at most 4, on top of a stack that was t0, p0, ds0. */
  ghost predicate Stacked(capacity: nat, t0: u32, p0: nat, ds0: Cells, ws: seq<u32>, t: u32, p: nat, ds: Cells) {
    && capacity >= 32 && p0 < capacity && |ws| <= 4 && p == Above(p0, |ws|, capacity)
    && t == (if ws == [] then t0 else ws[|ws| - 1])
    && (ws != [] ==> ds(Above(p0, 1, capacity)) == t0)
    && (forall j :: 0 <= j < |ws| - 1 ==> ds(Above(p0, j + 2, capacity)) == ws[j])
    && (forall c :: !Near(p0, capacity, c) ==> ds(c) == ds0(c))
  }

  lemma {:induction false} NextAbove(p: nat, j: nat, capacity: nat)
    requires capacity >= 32 && p < capacity && j <= 4
    ensures (Above(p, j, capacity) + 1) % capacity == Above(p, j + 1, capacity)
    ensures (Above(p, j + 1, capacity) + capacity - 1) % capacity == Above(p, j, capacity)
  {
    var a := Above(p, j, capacity);
    UpAndDown(a, capacity);
    if a + 1 < capacity {
      Quotient(a + 1, capacity, 0, a + 1);
    } else {
      Quotient(a + 1, capacity, 1, 0);
    }
  }

  lemma {:induction false} StackedPush(capacity: nat, t0: u32, p0: nat, ds0: Cells, ws: seq<u32>, t: u32, p: nat, ds: Cells, x: u32)
    requires Stacked(capacity, t0, p0, ds0, ws, t, p, ds) && |ws| < 4
    ensures Stacked(capacity, t0, p0, ds0, ws + [x], x, (p + 1) % capacity, Put(ds, (p + 1) % capacity, t))
  {
    NextAbove(p0, |ws|, capacity);
    assert Near(p0, capacity, Above(p0, |ws| + 1, capacity));
  }

  lemma {:induction false} StackedPop(capacity: nat, t0: u32, p0: nat, ds0: Cells, ws: seq<u32>, t: u32, p: nat, ds: Cells)
    requires Stacked(capacity, t0, p0, ds0, ws, t, p, ds) && ws != []
    ensures t == ws[|ws| - 1]
    ensures Stacked(capacity, t0, p0, ds0, ws[..|ws| - 1], ds(p), (p + capacity - 1) % capacity, ds)
  {
    NextAbove(p0, |ws| - 1, capacity);
  }

  function Reversed(s: seq<u32>): seq<u32> {
    if s == [] then [] else Reversed(s[1..]) + [s[0]]
  }

  lemma {:induction false} ReversedFirst(s: seq<u32>, w: u32)
    ensures Reversed([w] + s) == Reversed(s) + [w]
  {
    assert ([w] + s)[1..] == s;
  }

  lemma {:induction false} PrefixesStep(x: nat, out: seq<u32>)
    requires x > 0
    ensures Prefixes(x) + out == Prefixes(x / 0x400) + ([PFX + x % 0x400] + out)
    ensures |Prefixes(x)| == |Prefixes(x / 0x400)| + 1
  {
    var p, w := Prefixes(x / 0x400), [PFX + x % 0x400];
    assert p + w + out == p + (w + out);
  }

  /** Ghostly, the words a literal has waiting on the data stack, over a terminator. */
  function Waiting(out: seq<u32>): seq<u32> {
    [0xFFFF_FFFF] + Reversed(out)
  }

  lemma {:induction false} WaitingMore(out: seq<u32>, w: u32)
    ensures Waiting([w] + out) == Waiting(out) + [w] && |Waiting(out)| == |out| + 1
  {
    ReversedFirst(out, w);
    ReversedLength(out);
  }

  /** The next word moves from those waiting to those compiled. */
  lemma {:induction false} OneMoved(code: seq<nat>, done: seq<u32>, rest: seq<u32>, n: u32)
    requires rest != [] && rest[0] == n
    ensures code + done + [n] == code + (done + [n]) && done + [n] + rest[1..] == done + rest
  {}

  lemma {:induction false} ReversedLength(s: seq<u32>)
    ensures |Reversed(s)| == |s|
  {
    if s == [] {
    } else {
      ReversedLength(s[1..]);
    }
  }

  /** The last one waiting is the next to compile. */
  lemma {:induction false} WaitingLast(out: seq<u32>)
    ensures |Waiting(out)| == |out| + 1
    ensures out == [] ==> Waiting(out) == [0xFFFF_FFFF]
    ensures out != [] ==> Waiting(out)[|out|] == out[0] && Waiting(out)[..|out|] == Waiting(out[1..])
  {
    ReversedLength(out);
    if out != [] {
      ReversedLength(out[1..]);
    }
  }

  /** n words fit from pc on: their cells can be written, and the dictionary pointer stays below its limit. */
  predicate Fits(bd: Board, cpMax: nat, pc: nat, n: nat) {
    forall k: nat :: pc <= k < pc + n ==> FitsAt(bd, cpMax, k)
  }

  predicate FitsAt(bd: Board, cpMax: nat, k: nat) {
    bd.writeIor(k / 2) == 0 && (k + 1) / 2 < cpMax
  }

  lemma {:induction false} FitsOne(bd: Board, cpMax: nat, pc: nat)
    ensures Fits(bd, cpMax, pc, 1) <==> FitsAt(bd, cpMax, pc)
  {}

  lemma {:induction false} FitsSplit(bd: Board, cpMax: nat, pc: nat, m: nat, n: nat)
    ensures Fits(bd, cpMax, pc, m + n) <==> Fits(bd, cpMax, pc, m) && Fits(bd, cpMax, pc + m, n)
  {
    if Fits(bd, cpMax, pc, m) && Fits(bd, cpMax, pc + m, n) {
      forall k: nat | pc <= k < pc + (m + n) ensures FitsAt(bd, cpMax, k) {
        assert k < pc + m || k >= pc + m;
      }
    }
  }

  lemma {:induction false} FitsLess(bd: Board, cpMax: nat, pc: nat, n: nat, pc': nat, n': nat)
    requires Fits(bd, cpMax, pc, n) && pc <= pc' && pc' + n' <= pc + n
    ensures Fits(bd, cpMax, pc', n')
  {}

  /** The words NewInst compiles. */
  function Flushed(slot: int): nat {
    if slot == 9 then 0 else 1
  }

  /** A group with no slot left for this micro-op is flushed. */
  predicate Flushes(slot: int, uop: nat) {
    slot < -4 || (slot < 0 && uop >= 16)
  }

  /** The slot after a micro-op. */
  function SlotAfter(slot: int, uop: nat): int {
    if slot < -4 then 4 else if slot >= 0 then slot - 5 else if uop >= 16 then 4 else -5
  }

  function UopWords(slot: int, uop: nat): nat {
    if Flushes(slot, uop) then 1 else 0
  }

  // ---- how many words an item compiles, and the slot after it ----------------------------------

  predicate IsMacro(w: u32) { w / 0x4000_0000 % 2 == 1 }

  /** The second and third micro-ops of a macro; a third that is a nop is left out. */
  function RestWords(slot: int, w: u32): nat {
    UopWords(slot, w / 0x10 % 32) + if w % 16 == NOP then 0 else UopWords(SlotAfter(slot, w / 0x10 % 32), w % 16)
  }

  function RestSlot(slot: int, w: u32): int {
    var next := SlotAfter(slot, w / 0x10 % 32);
    if w % 16 == NOP then next else SlotAfter(next, w % 16)
  }

  function PrimitiveWords(slot: int, w: u32): nat {
    if w / 0x2000_0000 % 2 == 1 then Flushed(slot) + 1
    else
      var op := w / 0x200 % 32;
      UopWords(slot, op) + if IsMacro(w) then RestWords(SlotAfter(slot, op), w) else 0
  }

  function PrimitiveSlot(slot: int, w: u32): int {
    if w / 0x2000_0000 % 2 == 1 then 9
    else
      var next := SlotAfter(slot, w / 0x200 % 32);
      if IsMacro(w) then RestSlot(next, w) else next
  }

  /** Where a micro-op of it that is too wide for the last slot reports a group that is lost; elsewhere nothing does. */
  predicate Reports(slot: int, w: u32) {
    (slot == -1 && w / 0x200 % 32 >= 16) || (slot == 4 && IsMacro(w) && w / 0x10 % 32 >= 16)
  }

  /** What a literal pushes: its complement if it is negative. */
  function Pushable(x: u32): u32 {
    if x >= 0x8000_0000 then 0xFFFF_FFFF - x else x
  }

  function ItemWords(slot: int, item: Item): nat {
    match item
    case Primitive(w) => PrimitiveWords(slot, w)
    case Literal(x) => Flushed(slot) + |LitWords(Pushable(x))|
  }

  function ItemSlot(slot: int, item: Item): int {
    match item
    case Primitive(w) => PrimitiveSlot(slot, w)
    case Literal(x) => if x >= 0x8000_0000 then 4 else 9
  }

  function SlotThen(slot: int, items: seq<Item>): int {
    if items == [] then slot else ItemSlot(SlotThen(slot, items[..|items| - 1]), items[|items| - 1])
  }

  function AllWords(slot: int, items: seq<Item>): nat {
    if items == [] then 0
    else AllWords(slot, items[..|items| - 1]) + ItemWords(SlotThen(slot, items[..|items| - 1]), items[|items| - 1])
  }

  lemma {:induction false} MoreWords(slot: int, items: seq<Item>, n: nat)
    requires n < |items|
    ensures AllWords(slot, items[..n + 1]) == AllWords(slot, items[..n]) + ItemWords(SlotThen(slot, items[..n]), items[n])
    ensures SlotThen(slot, items[..n + 1]) == ItemSlot(SlotThen(slot, items[..n]), items[n])
  {
    assert items[..n + 1][..n] == items[..n];
  }

  /** Four words are enough for any item. */
  lemma {:induction false} FourEach(slot: int, items: seq<Item>)
    ensures AllWords(slot, items) <= 4 * |items|
  {
    if items == [] {
    } else {
      var n := |items| - 1;
      FourEach(slot, items[..n]);
      if items[n].Literal? { LiteralRoundTrip(Pushable(items[n].x)); }
    }
  }

  class Compiler {
    const bd: Board
    const cpMax: nat
    ghost const start: nat       // where the code described begins

    var mem: Cells
    var cp: u32                  // the next 16-bit slot
    ghost var pc: nat            // its code address
    var slot: int
    var instruction: nat
    var lastcall: u32
    ghost var failed: bool       // a word did not fit in code space
    var t: u32                   // the machine's data stack: its top,
    var dsp: nat                 // and the cells below
    var ds: Cells

    ghost function Code(): seq<nat>
      reads this
    {
      Words(mem, start, pc)
    }

    /** Everything compiled so far, the group under way included. */
    ghost function Acts(): seq<Act>
      reads this
    {
      ActsOf(Code(), 0) + Live(Slots(instruction))
    }

    ghost predicate Located()
      reads this
    {
      bd.Valid() && bd.Readable() && cpMax < CELLS && start <= pc && pc / 2 < cpMax && cp == PcSlot(pc) && dsp < bd.capacity
    }

    ghost predicate Base()
      reads this
    {
      Located() && (!failed ==> PfxOf(Code(), 0) == 0)
    }

    /** lastcall, when `;` may patch it, is the call just compiled. */
    ghost predicate Patchable()
      reads this
    {
      && start < pc && pc - 1 < CODE_LIMIT && lastcall == PcSlot(pc - 1)
      && Half(mem, pc - 1) / 0x2000 == 1 && bd.writeIor((pc - 1) / 2) == 0
    }

    ghost predicate Valid()
      reads this
    {
      && Base() && Empty(instruction, slot) && slot != 0
      && (slot == 9 && lastcall != 0 && !failed ==> Patchable())
    }

    /** commaCode: one word more, or an error and the code as it was. */
    method CommaCode(inst: u32) returns (ior: int)
      requires Located()
      modifies `mem, `cp, `pc, `failed
      ensures Located()
      ensures ior == 0 <==> Fits(bd, cpMax, old(pc), 1)
      ensures ior == 0 ==> Code() == old(Code()) + [inst % 0x1_0000] && pc == old(pc) + 1 && failed == old(failed)
      ensures ior == 0 ==> bd.writeIor(old(pc) / 2) == 0 && Half(mem, old(pc)) == inst % 0x1_0000
      ensures ior != 0 ==> Code() == old(Code()) && pc == old(pc) && failed
    {
      hide ActsOf, PfxOf, Live, Slots, Half, Words, PcSlot, CellOf, FieldPlus, Store;
      ghost var from := mem;
      StoreIor(bd, mem, pc, inst);
      FitsOne(bd, cpMax, pc);
      var done := Store(bd, mem, cp, inst);
      ior := done.0;
      if ior != 0 {
        failed := true;
        return;
      }
      mem := done.1;
      StoredWord(bd, from, start, pc, inst, mem);
      Advance(pc, cpMax);
      var next := FieldPlus(cp);
      if CellOf(next) >= cpMax {
        ior := ERR_DICTIONARY_OVERFLOW;
        failed := true;
        return;
      }
      cp, pc := next, pc + 1;
    }

    /** Nothing compiled yet, at an address with room. */
    constructor (board: Board, limit: nat, memory: Cells, at: nat)
      requires board.Valid() && board.Readable() && limit < CELLS && at / 2 < limit
      ensures Valid() && !failed && Code() == [] && Acts() == [] && slot == 9
      ensures bd == board && cpMax == limit && mem == memory && start == at == pc && lastcall == 0
    {
      bd, cpMax, start, mem := board, limit, at, memory;
      cp, pc := PcSlot(at), at;
      slot, instruction, lastcall, failed := 9, 0, 0, false;
      t, dsp, ds := 0, 0, (k: nat) => 0;
      NoSlots();
    }

    method FreshSlots()
      modifies `instruction, `slot
      ensures instruction == 0 && slot == 9
    {
      instruction := 0;
      slot := 9;
    }

    /** Flush the group under way. An error of commaCode is dropped, and the group with it. */
    method NewInst()
      requires Base() && instruction < GROUP && (slot == 9 ==> instruction == 0)
      modifies `mem, `cp, `pc, `failed, `instruction, `slot, `lastcall
      ensures Valid() && slot == 9 && lastcall == 0
      ensures failed == (old(failed) || (old(slot) != 9 && !Fits(bd, cpMax, old(pc), 1)))
      ensures pc == old(pc) + if old(slot) != 9 && Fits(bd, cpMax, old(pc), 1) then 1 else 0
      ensures !failed ==> Acts() == old(ActsOf(Code(), 0)) + (if old(instruction) < RET then [] else [Ret])
                                    + old(Live(Slots(instruction)))
      ensures if old(slot) == 9 || !Fits(bd, cpMax, old(pc), 1) then Code() == old(Code())
              else !failed ==> Code() == old(Code()) + [GROUP + old(instruction)]
    {
      hide ActsOf, PfxOf, Slots, Live, PcSlot, Words;
      NoSlots();
      if slot != 9 {
        if !failed { AppendGroup(Code(), instruction); }
        var ior := CommaCode(GROUP + instruction);
      }
      FreshSlots();
      lastcall := 0;
    }

    /**
     * Compile a 5-bit micro-op: in the next slot, or the first of a new group. If
     * the full group does not fit it is lost, and the result is 0 all the same;
     * only a micro-op too wide for the last slot reports it.
     */
    method CompUop(op: nat) returns (ior: int)
      requires Valid()
      modifies `mem, `cp, `pc, `failed, `instruction, `slot, `lastcall
      ensures Valid() && slot != 9
      ensures ior == 0 <==> (old(slot) == -1 && op % 32 >= 16 ==> Fits(bd, cpMax, old(pc), 1))
      ensures failed == (old(failed) || (Flushes(old(slot), op % 32) && !Fits(bd, cpMax, old(pc), 1)))
      ensures pc == old(pc) + if Flushes(old(slot), op % 32) && Fits(bd, cpMax, old(pc), 1) then 1 else 0
      ensures lastcall == 0 || lastcall == old(lastcall)
      ensures slot == SlotAfter(old(slot), op % 32)
      ensures !Flushes(old(slot), op % 32) ==> Code() == old(Code())
      ensures Flushes(old(slot), op % 32) && !Fits(bd, cpMax, old(pc), 1) ==>
                Code() == old(Code()) && Acts() == old(ActsOf(Code(), 0)) + Live([op % 32])
      ensures !failed ==> Acts() == old(Acts()) + Live([op % 32])
    {
      hide Fits, Half, ActsOf, PfxOf, Slots, Live, PcSlot, Words;
      var uop := op % 32;
      ior := 0;
      if slot < -4 {
        NewInst();
        assert !failed ==> Acts() == old(Acts()) by { NoReturn(old(Acts()), old(Live(Slots(instruction)))); }
      }
      NoSlots();
      assert [] + Live([uop]) == Live([uop]);
      ior := FillSlot(uop);
    }

    /** It goes in the next slot, the last one if it fits its 4 bits. */
    method FillSlot(uop: nat) returns (ior: int)
      requires Base() && Empty(instruction, slot) && slot in {9, 4, -1} && uop < 32
      modifies `mem, `cp, `pc, `failed, `instruction, `slot
      ensures Base() && Empty(instruction, slot)
      ensures slot == SlotAfter(old(slot), uop)
      ensures ior == 0 <==> (old(slot) == -1 && uop >= 16 ==> Fits(bd, cpMax, old(pc), 1))
      ensures failed == (old(failed) || (old(slot) == -1 && uop >= 16 && !Fits(bd, cpMax, old(pc), 1)))
      ensures pc == old(pc) + if old(slot) == -1 && uop >= 16 && Fits(bd, cpMax, old(pc), 1) then 1 else 0
      ensures !(old(slot) == -1 && uop >= 16 && Fits(bd, cpMax, old(pc), 1)) ==> Code() == old(Code())
      ensures old(slot) == -1 && uop >= 16 && !Fits(bd, cpMax, old(pc), 1) ==> Live(Slots(instruction)) == Live([uop])
      ensures old(slot) == 9 ==> Live(Slots(instruction)) == Live([uop])
      ensures !failed ==> Acts() == old(Acts()) + Live([uop])
    {
      hide Placed, Fits, Half, ActsOf, PfxOf, Slots, Live, PcSlot, Words;
      ior := MakeRoom(uop);
      PlacedActs(instruction, uop, slot);
      NoSlots();
      assert [] + Live([uop]) == Live([uop]);
      instruction := Placed(instruction, uop, slot);
      slot := slot - 5;
    }

    /** The last slot has 4 bits: a micro-op that needs 5 goes in a new group. */
    method MakeRoom(uop: nat) returns (ior: int)
      requires Base() && Empty(instruction, slot) && slot in {9, 4, -1} && uop < 32
      modifies `mem, `cp, `pc, `failed, `instruction, `slot
      ensures Base() && Empty(instruction, slot) && slot in {9, 4, 0} && (slot == 0 ==> uop < 16)
      ensures slot == if old(slot) >= 0 then old(slot) else if uop >= 16 then 9 else 0
      ensures ior == 0 <==> (old(slot) == -1 && uop >= 16 ==> Fits(bd, cpMax, old(pc), 1))
      ensures failed == (old(failed) || (old(slot) == -1 && uop >= 16 && !Fits(bd, cpMax, old(pc), 1)))
      ensures pc == old(pc) + if old(slot) == -1 && uop >= 16 && Fits(bd, cpMax, old(pc), 1) then 1 else 0
      ensures old(slot) == -1 && uop >= 16 && !Fits(bd, cpMax, old(pc), 1) ==> Code() == old(Code()) && instruction == 0
      ensures !(old(slot) == -1 && uop >= 16) ==> Code() == old(Code()) && instruction == old(instruction)
      ensures !failed ==> Acts() == old(Acts())
    {
      hide ActsOf, PfxOf, Slots, Live, PcSlot, Words;
      ior := 0;
      if slot < 0 {
        slot := 0;
        if uop >= 16 {
          if !failed { AppendGroup(Code(), instruction); }
          ior := CommaCode(GROUP + instruction);
          FreshSlots();
          NoSlots();
        }
      }
    }

    ghost predicate Holding(t0: u32, p0: nat, ds0: Cells, ws: seq<u32>)
      reads this
    {
      Stacked(bd.capacity, t0, p0, ds0, ws, t, dsp, ds)
    }

    method VmPush(x: u32, ghost t0: u32, ghost p0: nat, ghost ds0: Cells, ghost ws: seq<u32>)
      requires bd.Valid() && Holding(t0, p0, ds0, ws) && |ws| < 4
      modifies `t, `dsp, `ds
      ensures Holding(t0, p0, ds0, ws + [x]) && dsp < bd.capacity
    {
      StackedPush(bd.capacity, t0, p0, ds0, ws, t, dsp, ds, x);
      dsp := (dsp + 1) % bd.capacity;
      ds := Put(ds, dsp, t);
      t := x;
    }

    method VmPop(ghost t0: u32, ghost p0: nat, ghost ds0: Cells, ghost ws: seq<u32>) returns (x: u32)
      requires bd.Valid() && Holding(t0, p0, ds0, ws) && ws != []
      modifies `t, `dsp
      ensures x == ws[|ws| - 1] && Holding(t0, p0, ds0, ws[..|ws| - 1]) && dsp < bd.capacity
    {
      StackedPop(bd.capacity, t0, p0, ds0, ws, t, dsp, ds);
      x := t;
      t, dsp := ds(dsp), (dsp + bd.capacity - 1) % bd.capacity;
    }

    /** The first loop of CompUlit: the words of x, last one first, over a terminator. */
    method PushWords(x0: u32, ghost t0: u32, ghost p0: nat, ghost ds0: Cells)
      requires bd.Valid() && Holding(t0, p0, ds0, [])
      modifies `t, `dsp, `ds
      ensures Holding(t0, p0, ds0, Waiting(LitWords(x0))) && dsp < bd.capacity
    {
      hide Waiting, LitWords, Prefixes, Stacked;
      ghost var out: seq<u32> := [];
      WaitingLast([]);
      VmPush(0xFFFF_FFFF, t0, p0, ds0, []);
      assert [] + [0xFFFF_FFFF] == Waiting(out);
      var w := LIT + x0 % 0x2000;
      WaitingMore(out, w);
      VmPush(w, t0, p0, ds0, Waiting(out));
      out := [w] + out;
      var x: nat := x0 / 0x2000;
      LiteralRoundTrip(x0);
      assert Prefixes(x) + out == LitWords(x0) by { LitWordsAre(x0); assert [w] + [] == [w]; }
      while x != 0
        invariant Prefixes(x) + out == LitWords(x0) && |LitWords(x0)| <= 3
        invariant Holding(t0, p0, ds0, Waiting(out)) && dsp < bd.capacity
      {
        w := PFX + x % 0x400;
        PrefixesStep(x, out);
        WaitingMore(out, w);
        VmPush(w, t0, p0, ds0, Waiting(out));
        out := [w] + out;
        x := x / 0x400;
      }
      NoPrefixes(out);
    }

    /** The second loop: pop them and compile them, down to the terminator. */
    method CompileWaiting(ghost words: seq<u32>, ghost t0: u32, ghost p0: nat, ghost ds0: Cells) returns (ior: int)
      requires Located() && Holding(t0, p0, ds0, Waiting(words)) && |words| <= 3
      requires forall i :: 0 <= i < |words| ==> words[i] < 0x1_0000
      modifies `mem, `cp, `pc, `failed, `t, `dsp
      ensures Located()
      ensures ior == 0 <==> Fits(bd, cpMax, old(pc), |words|)
      ensures old(pc) <= pc <= old(pc) + |words| && (ior == 0 ==> pc == old(pc) + |words|)
      ensures if ior != 0 then failed
              else failed == old(failed) && Code() == old(Code()) + words && Holding(t0, p0, ds0, [])
    {
      hide Waiting, Stacked, Words, PcSlot;
      ghost var done: seq<u32> := [];
      ghost var rest := words;
      assert old(Code()) + done == Code();
      assert done + rest == words;
      ior := 0;
      while true
        invariant Located() && Holding(t0, p0, ds0, Waiting(rest))
        invariant done + rest == words && Code() == old(Code()) + done && failed == old(failed) && ior == 0
        invariant pc == old(pc) + |done| && Fits(bd, cpMax, old(pc), |done|)
        decreases |rest|
      {
        WaitingLast(rest);
        var n := VmPop(t0, p0, ds0, Waiting(rest));
        assert rest != [] ==> words[|done|] == n;
        if n >= 0x8000_0000 {
          assert rest == [];
          assert Waiting(rest)[..0] == [];
          assert done == words;
          return;
        }
        assert rest != [];
        OneMoved(old(Code()), done, rest, n);
        FitsSplit(bd, cpMax, old(pc), |done|, 1);
        FitsSplit(bd, cpMax, old(pc), |done| + 1, |words| - |done| - 1);
        done, rest := done + [n], rest[1..];
        ior := CommaCode(n);
        if ior != 0 {
          return;
        }
      }
    }

    /** Compile an unsigned literal; the data stack's items are as they were. */
    method CompUlit(x: u32) returns (ior: int)
      requires Valid()
      modifies this
      ensures Valid() && slot == 9
      ensures old(failed) || ior != 0 ==> failed
      ensures lastcall == 0
      ensures ior == 0 <==> Fits(bd, cpMax, old(pc) + (if old(slot) != 9 && Fits(bd, cpMax, old(pc), 1) then 1 else 0), |LitWords(x)|)
      ensures !failed ==> pc == old(pc) + Flushed(old(slot)) + |LitWords(x)|
      ensures old(pc) <= pc <= old(pc) + Flushed(old(slot)) + |LitWords(x)|
      ensures failed == (old(failed) || !Fits(bd, cpMax, old(pc), Flushed(old(slot)) + |LitWords(x)|))
      ensures !failed ==> Acts() == old(Acts()) + [Push(x)]
      ensures !failed ==> t == old(t) && dsp == old(dsp)
      ensures !failed ==> forall c :: !Near(dsp, bd.capacity, c) ==> ds(c) == old(ds)(c)
    {
      hide ActsOf, PfxOf, Slots, Live, PcSlot, Words, LitWords;
      NewInst();
      assert !failed ==> Acts() == old(Acts()) by { NoReturn(old(ActsOf(Code(), 0)), old(Live(Slots(instruction)))); }
      ghost var code, acts := Code(), Acts();
      NoSlots();
      LiteralRoundTrip(x);
      SmallWords(x);
      FitsSplit(bd, cpMax, old(pc), Flushed(old(slot)), |LitWords(x)|);
      PushWords(x, old(t), old(dsp), old(ds));
      ior := CompileWaiting(LitWords(x), old(t), old(dsp), old(ds));
      if !failed { ActsOfConcat(code, LitWords(x), 0); }
    }

    /** A literal: a negative one as its complement, then inv. CompUlit's error is dropped then. */
    method CompileLit(x: u32) returns (ior: int)
      requires Valid()
      modifies this
      ensures Valid()
      ensures old(failed) || ior != 0 ==> failed
      ensures failed == (old(failed) || !Fits(bd, cpMax, old(pc), ItemWords(old(slot), Literal(x))))
      ensures !failed ==> pc == old(pc) + ItemWords(old(slot), Literal(x)) && slot == ItemSlot(old(slot), Literal(x))
      ensures lastcall == 0 || lastcall == old(lastcall)
      ensures x >= 0x8000_0000 ==> ior == 0
      ensures !failed ==> Acts() == old(Acts()) + LiteralActs(x)
      ensures !failed ==> t == old(t) && dsp == old(dsp)
      ensures !failed ==> forall c :: !Near(dsp, bd.capacity, c) ==> ds(c) == old(ds)(c)
    {
      hide ActsOf, PfxOf, Slots, Live, PcSlot, Words, Fits, LitWords;
      if x >= 0x8000_0000 {
        var dropped := CompUlit(0xFFFF_FFFF - x);
        OneLive(INV);
        assert old(Acts()) + [Push(0xFFFF_FFFF - x)] + [Op(INV)] == old(Acts()) + [Push(0xFFFF_FFFF - x), Op(INV)];
        ior := CompUop(INV);
      } else {
        ior := CompUlit(x);
      }
    }

    /** A word that is a primitive: a wide instruction, a micro-op, or a macro of two or three. */
    method CompilePrimitive(w: u32) returns (ior: int)
      requires Valid()
      requires w / 0x2000_0000 % 2 == 1 ==> IsWide(w % 0x1_0000)
      modifies this
      ensures Valid()
      ensures old(failed) || ior != 0 ==> failed
      ensures failed == (old(failed) || !Fits(bd, cpMax, old(pc), PrimitiveWords(old(slot), w)))
      ensures !failed ==> pc == old(pc) + PrimitiveWords(old(slot), w) && slot == PrimitiveSlot(old(slot), w)
      ensures lastcall == 0 || lastcall == old(lastcall)
      ensures w / 0x2000_0000 % 2 == 0 ==> (ior == 0 <==> (Reports(old(slot), w) ==> Fits(bd, cpMax, old(pc), 1)))
      ensures !failed ==> Acts() == old(Acts()) + PrimitiveActs(w)
    {
      hide ActsOf, PfxOf, Slots, Live, PcSlot, Words;
      if w / 0x2000_0000 % 2 == 1 {
        ior := CompWide(w);
      } else {
        ior := CompUop(w / 0x200);
        if ior != 0 || w / 0x4000_0000 % 2 == 0 {
          return;
        }
        ior := CompMacroRest(w);
        Macro(old(Acts()), w);
      }
    }

    method CompMacroRest(w: u32) returns (ior: int)
      requires Valid() && slot != 9
      modifies `mem, `cp, `pc, `failed, `instruction, `slot, `lastcall
      ensures Valid()
      ensures old(failed) || ior != 0 ==> failed
      ensures failed == (old(failed) || !Fits(bd, cpMax, old(pc), RestWords(old(slot), w)))
      ensures !failed ==> pc == old(pc) + RestWords(old(slot), w) && slot == RestSlot(old(slot), w)
      ensures lastcall == 0 || lastcall == old(lastcall)
      ensures ior == 0 <==> (old(slot) == -1 && w / 0x10 % 32 >= 16 ==> Fits(bd, cpMax, old(pc), 1))
      ensures !failed ==> Acts() == old(Acts()) + Live([w / 0x10 % 32]) + Live([w % 16])
    {
      hide ActsOf, PfxOf, Slots, Live, PcSlot, Words;
      ior := CompUop(w / 0x10);
      OneLive(w % 16);
      if w % 16 != NOP {
        var dropped := CompUop(w % 16);
      }
    }

    method CompWide(w: u32) returns (ior: int)
      requires Valid() && IsWide(w % 0x1_0000)
      modifies `mem, `cp, `pc, `failed, `instruction, `slot, `lastcall
      ensures Valid()
      ensures old(failed) || ior != 0 ==> failed
      ensures old(pc) <= pc <= old(pc) + Flushed(old(slot)) + 1
      ensures failed == (old(failed) || !Fits(bd, cpMax, old(pc), Flushed(old(slot)) + 1))
      ensures !failed ==> pc == old(pc) + Flushed(old(slot)) + 1 && slot == 9
      ensures lastcall == 0
      ensures !failed ==> Acts() == old(Acts()) + [Wide(w % 0x1_0000)]
    {
      hide ActsOf, PfxOf, Slots, Live, PcSlot, Words;
      NewInst();
      assert !failed ==> Acts() == old(Acts()) by { NoReturn(old(ActsOf(Code(), 0)), old(Live(Slots(instruction)))); }
      NoSlots();
      if !failed { AppendWord(Code(), w % 0x1_0000); }
      ior := CommaCode(w);
    }

    /** Compile a call; `;` may make it a jump unless it is marked. The words before it are `flushed`. */
    method CompCall(w: u32) returns (ior: int, ghost flushed: seq<nat>)
      requires Valid()
      modifies `mem, `cp, `pc, `failed, `instruction, `slot, `lastcall
      ensures Valid() && slot == 9
      ensures old(failed) || ior != 0 ==> failed
      ensures failed == (old(failed) || !Fits(bd, cpMax, old(pc), Flushed(old(slot)) + |CallWords(w % CODE_LIMIT)|))
      ensures !failed && w % CODE_LIMIT < 0x2000 ==> Acts() == old(Acts()) + [Call(w % CODE_LIMIT)]
      ensures !failed ==> Code() == flushed + CallWords(w % CODE_LIMIT) && ActsOf(flushed, 0) == old(Acts()) && PfxOf(flushed, 0) == 0
      ensures !failed ==> pc == old(pc) + Flushed(old(slot)) + |CallWords(w % CODE_LIMIT)|
      ensures !failed ==> (lastcall != 0 <==> w / 0x1000_0000 % 2 == 0)
    {
      hide Fits, ActsOf, PfxOf, ActsOf1, PfxOf1, Slots, Live, PcSlot, Words, Half;
      NewInst();
      assert !failed ==> Acts() == old(Acts()) by { NoReturn(old(ActsOf(Code(), 0)), old(Live(Slots(instruction)))); }
      NoSlots();
      flushed := Code();
      assert ActsOf(flushed, 0) + [] == ActsOf(flushed, 0);
      FitsSplit(bd, cpMax, old(pc), Flushed(old(slot)), |CallWords(w % CODE_LIMIT)|);
      ior := CallNext(w);
      if !failed {
        CallActs(flushed, w % CODE_LIMIT);
      }
    }

    /** The call's words, nothing being under way. */
    method CallNext(w: u32) returns (ior: int)
      requires Valid() && slot == 9 && lastcall == 0
      modifies `mem, `cp, `pc, `failed, `lastcall
      ensures Valid()
      ensures old(failed) || ior != 0 ==> failed
      ensures failed == (old(failed) || !Fits(bd, cpMax, old(pc), |CallWords(w % CODE_LIMIT)|))
      ensures !failed ==> Code() == old(Code()) + CallWords(w % CODE_LIMIT) && pc == old(pc) + |CallWords(w % CODE_LIMIT)|
      ensures !failed ==> (lastcall != 0 <==> w / 0x1000_0000 % 2 == 0)
    {
      hide Fits, ActsOf, PfxOf, ActsOf1, PfxOf1, Slots, Live, PcSlot, Words, Half;
      var xt := w % CODE_LIMIT;
      FitsSplit(bd, cpMax, pc, |CallWords(xt)| - 1, 1);
      CallPrefix(xt);
      if w / 0x1000_0000 % 2 == 0 {
        lastcall := cp;
      }
      NotZero(pc);
      ior := CallTo(xt);
    }

    /** The prefix of a call to a far address. An error is dropped. */
    method CallPrefix(xt: nat)
      requires Located() && xt < CODE_LIMIT
      modifies `mem, `cp, `pc, `failed
      ensures Located()
      ensures failed == (old(failed) || !Fits(bd, cpMax, old(pc), |CallWords(xt)| - 1))
      ensures !failed ==> pc == old(pc) + |CallWords(xt)| - 1
      ensures !failed ==> Code() + [CALL + xt % 0x2000] == old(Code()) + CallWords(xt)
    {
      hide ActsOf, PfxOf, ActsOf1, PfxOf1, Slots, Live, PcSlot, Words, Half;
      if xt >= 0x2000 {
        var dropped := CommaCode(PFX + xt / 0x200);
        ghost var p, c := [(PFX + xt / 0x200) % 0x1_0000], [CALL + xt % 0x2000];
        assert old(Code()) + p + c == old(Code()) + (p + c);
      } else {
        assert [] + [CALL + xt % 0x2000] == [CALL + xt % 0x2000];
      }
    }

    method CallTo(xt: nat) returns (ior: int)
      requires Located() && slot == 9 && instruction == 0
      requires lastcall == 0 || lastcall == PcSlot(pc)
      modifies `mem, `cp, `pc, `failed
      ensures Valid()
      ensures ior == 0 <==> Fits(bd, cpMax, old(pc), 1)
      ensures failed == (old(failed) || ior != 0) && (!failed ==> pc == old(pc) + 1)
      ensures !failed ==> Code() == old(Code()) + [CALL + xt % 0x2000]
    {
      hide ActsOf, PfxOf, ActsOf1, PfxOf1, Slots, Live, PcSlot, Words, Half;
      ghost var before := Code();
      CallWord(xt, PfxOf(before, 0));
      ior := CommaCode(CALL + xt % 0x2000);
      ActsOfConcat(before, [CALL + xt % 0x2000], 0);
      OneWord(CALL + xt % 0x2000, PfxOf(before, 0));
    }

    /** The words that exit compiles: none for a jump, else the group that returns, and the one before if it may not. */
    ghost function ExitWords(): nat
      reads this
    {
      if slot == 9 && lastcall != 0 then 0
      else if slot != 9 && !RetFreeActs(Live(Slots(instruction))) then 2
      else 1
    }

    /** exit: the group under way returns, or a call just compiled becomes a jump. */
    method CompExit() returns (ior: int)
      requires Valid()
      modifies `mem, `cp, `pc, `failed, `instruction, `slot, `lastcall
      ensures Valid()
      ensures failed == (old(failed) || !Fits(bd, cpMax, old(pc), old(ExitWords())))
      ensures !failed ==> pc == old(pc) + old(ExitWords())
      ensures old(slot) != 9 || old(lastcall) == 0 ==> ior == 0
      ensures old(slot) == 9 && old(lastcall) != 0 ==>
                (!failed ==> ior == 0 && EndsInCall(old(Acts())) && Acts() == AsJump(old(Acts()))
                             && |old(Code())| > 0 && Code() == WithJump(old(Code())))
      ensures old(slot) != 9 || old(lastcall) == 0 ==>
                (!failed ==> slot == 9 && EndsReturning(Code(), old(Acts())))
    {
      hide ActsOf, PfxOf, ActsOf1, PfxOf1, Slots, Live, PcSlot, Words, Half;
      if slot == 9 && lastcall != 0 {
        ior := MakeJump();
        return;
      }
      ior := 0;
      NoSlots();
      assert RetFreeActs([]);
      if slot != 9 {
        var uses := UsesRetStack(instruction);
        if uses {
          NewInst();
          assert !failed ==> Acts() == old(Acts()) by {
            NoReturn(old(ActsOf(Code(), 0)), old(Live(Slots(instruction))));
          }
        }
      }
      ghost var before := Code();
      FitsSplit(bd, cpMax, old(pc), old(ExitWords()) - 1, 1);
      ReturnWord(instruction);
      instruction := instruction + RET;
      slot := -10;
      NewInst();
      assert !failed ==> Code()[..|Code()| - 1] == before;
    }

    /** A call to a near word and then the exit: the word is jumped to. */
    method CompTailCall(to: nat) returns (ior: int, ghost flushed: seq<nat>)
      requires Valid() && !failed && to < 0x2000 && Fits(bd, cpMax, pc, Flushed(slot) + 1)
      modifies `mem, `cp, `pc, `failed, `instruction, `slot, `lastcall
      ensures Valid() && !failed && ior == 0 && pc == old(pc) + Flushed(old(slot)) + 1
      ensures Code() == flushed + [to] && ActsOf(flushed, 0) == old(Acts()) && PfxOf(flushed, 0) == 0
    {
      hide ActsOf, PfxOf, ActsOf1, PfxOf1, Slots, Live, PcSlot, Words, Half;
      assert |CallWords(to)| == 1;
      ior, flushed := CompCall(to);
      ior := CompExit();
      assert WithJump(flushed + [CALL + to]) == flushed + [to];
    }

    /** The call at lastcall becomes a jump. */
    method MakeJump() returns (ior: int)
      requires Valid() && slot == 9 && lastcall != 0
      modifies `mem, `lastcall
      ensures Valid()
      ensures !failed ==> ior == 0 && EndsInCall(old(Acts())) && Acts() == AsJump(old(Acts()))
      ensures !failed ==> |old(Code())| > 0 && Code() == WithJump(old(Code()))
    {
      hide ActsOf, PfxOf, ActsOf1, PfxOf1, Slots, Live, PcSlot, Words, Half, Fetch, Store, AsJump, EndsInCall;
      ghost var from := mem;
      var got := Fetch(bd, mem, lastcall);
      var callInst := if got.1 / CALL % 2 == 1 then got.1 - CALL else got.1;
      var done := Store(bd, mem, lastcall, callInst);
      ior, mem := done.0, done.1;
      if !failed {
        PatchedActs(bd, from, start, pc, callInst, mem);
        NoPending(old(Acts()), ActsOf(old(Code()), 0));
        NoPending(Acts(), ActsOf(Code(), 0));
      }
      lastcall := 0;
    }

    /** Compile a run of primitives and literals. */
    method CompileAll(items: seq<Item>) returns (ior: int)
      requires Valid() && forall i :: i in items && i.Primitive? ==> i.w / 0x2000_0000 % 2 == 0
      modifies this
      ensures Valid()
      ensures old(failed) || ior != 0 ==> failed
      ensures failed == (old(failed) || !Fits(bd, cpMax, old(pc), AllWords(old(slot), items)))
      ensures !failed ==> pc == old(pc) + AllWords(old(slot), items) && slot == SlotThen(old(slot), items)
      ensures lastcall == 0 || lastcall == old(lastcall)
      ensures !failed ==> Acts() == old(Acts()) + ItemActs(items)
    {
      assert AllWords(slot, items[..0]) == 0 && SlotThen(slot, items[..0]) == slot && Fits(bd, cpMax, pc, 0);
      hide Fits, AllWords, SlotThen, ActsOf, PfxOf, Slots, Live, PcSlot, Words, LiteralActs, PrimitiveActs;
      ior := 0;
      var n := 0;
      assert items[..0] == [];
      assert old(Acts()) + [] == old(Acts());
      while n < |items|
        invariant 0 <= n <= |items| && Valid() && (old(failed) || ior != 0 ==> failed)
        invariant lastcall == 0 || lastcall == old(lastcall)
        invariant failed == (old(failed) || !Fits(bd, cpMax, old(pc), AllWords(old(slot), items[..n])))
        invariant !failed ==> pc == old(pc) + AllWords(old(slot), items[..n]) && slot == SlotThen(old(slot), items[..n])
        invariant !failed ==> Acts() == old(Acts()) + ItemActs(items[..n])
      {
        MoreWords(old(slot), items, n);
        FitsSplit(bd, cpMax, old(pc), AllWords(old(slot), items[..n]), ItemWords(SlotThen(old(slot), items[..n]), items[n]));
        match items[n] {
          case Primitive(w) =>
            assert items[n] in items;
            ior := CompilePrimitive(w);
          case Literal(x) =>
            ior := CompileLit(x);
        }
        MoreItems(items, n);
        assert old(Acts()) + ItemActs(items[..n]) + ItemActs1(items[n]) == old(Acts()) + ItemActs(items[..n + 1]);
        n := n + 1;
      }
      assert items[..n] == items;
    }
  }

  /**
   * A group that is lost: at the last instruction below the limit three
   * micro-ops fill a group, and a fourth flushes it where it does not fit. All
   * four words return 0, and of the four only the last is left.
   */
  method LoseGroup(board: Board, memory: Cells, at: nat, ops: seq<nat>)
    returns (iors: seq<int>, ghost code: seq<nat>, ghost acts: seq<Act>)
    requires board.Valid() && board.Readable() && at % 2 == 1 && at / 2 + 1 < CELLS
    requires |ops| == 4 && forall k :: 0 <= k < 4 ==> ops[k] < 16
    ensures iors == [0, 0, 0, 0] && code == [] && acts == Live([ops[3]])
  {
    hide Fits, ActsOf, PfxOf, Slots, Live, PcSlot, Words;
    var c := new Compiler(board, at / 2 + 1, memory, at);
    assert !FitsAt(board, at / 2 + 1, at);
    FitsOne(board, at / 2 + 1, at);
    var a := c.CompUop(ops[0]);
    var b := c.CompUop(ops[1]);
    var d := c.CompUop(ops[2]);
    assert c.slot == -5 && c.Code() == [] && c.pc == at;
    NothingDone();
    var e := c.CompUop(ops[3]);
    assert ops[3] % 32 == ops[3] && [] + Live([ops[3]]) == Live([ops[3]]);
    iors, acts := [a, b, d, e], c.Acts();
    code := c.Code();
  }

  lemma {:induction false} NothingDone()
    ensures ActsOf([], 0) == []
  {}

  /** Do any of the slots touch the return stack? */
  method UsesRetStack(inst: nat) returns (uses: bool)
    requires inst < RET
    ensures uses <==> !RetFreeActs(Live(Slots(inst)))
  {
    LiveRetFree(inst);
    var returnOps := [PUSH, RFETCH, POP, UNEXT];
    assert forall op :: UsesRets(op) <==> op in returnOps;
    var i := 9;
    ghost var n: nat := 0;
    while i >= -5
      invariant i == 9 - 5 * n && n <= 3
      invariant forall k :: 0 <= k < n ==> !UsesRets(Slots(inst)[k])
      decreases i + 6
    {
      var uop := if i < 0 then inst % 16 else if i == 9 then inst / 0x200 % 32 else inst / 0x10 % 32;
      assert uop == Slots(inst)[n];
      var j := 0;
      while j < |returnOps|
        invariant 0 <= j <= |returnOps| && uop !in returnOps[..j]
      {
        if returnOps[j] == uop {
          return true;
        }
        j := j + 1;
      }
      assert returnOps[..j] == returnOps && !UsesRets(uop);
      i := i - 5;
      n := n + 1;
    }
    uses := false;
  }

  /** A group leaves the return stack alone just when none of its slots is for it. */
  lemma {:induction false} LiveRetFree(inst: nat)
    ensures RetFreeActs(Live(Slots(inst))) <==> forall k :: 0 <= k < 3 ==> !UsesRets(Slots(inst)[k])
  {
    hide Live, RetFreeActs, UsesRets;
    var s := Slots(inst);
    Live3(s[0], s[1], s[2]);
    OneRetFree(s[0]);
    OneRetFree(s[1]);
    OneRetFree(s[2]);
    RetFreeConcat(Live([s[0]]), Live([s[1]]));
    RetFreeConcat(Live([s[0]]) + Live([s[1]]), Live([s[2]]));
  }

  lemma {:induction false} OneRetFree(op: nat)
    ensures RetFreeActs(Live([op])) <==> !UsesRets(op)
  {
    OneLive(op);
    if op != NOP {
      assert Op(op) in Live([op]);
    }
  }

  lemma {:induction false} RetFreeConcat(a: seq<Act>, b: seq<Act>)
    ensures RetFreeActs(a + b) <==> RetFreeActs(a) && RetFreeActs(b)
  {
    assert forall x :: x in a + b <==> x in a || x in b;
  }

  /** A call word without its call bit is the jump word to the same place. */
  lemma {:induction false} CallToJump(ws: seq<nat>, w: nat)
    requires w / 0x2000 == 1
    ensures EndsInCall(ActsOf(ws + [w], 0))
    ensures ActsOf(ws + [w - CALL], 0) == AsJump(ActsOf(ws + [w], 0))
    ensures PfxOf(ws + [w - CALL], 0) == 0
  {
    hide ActsOf, PfxOf, ActsOf1, PfxOf1;
    var pfx, acts := PfxOf(ws, 0), ActsOf(ws, 0);
    ActsOfConcat(ws, [w], 0);
    ActsOfConcat(ws, [w - CALL], 0);
    OneWord(w, pfx);
    OneWord(w - CALL, pfx);
    CallWord(w, pfx);
    assert w == CALL + w % 0x2000;
    JumpWord(w - CALL, pfx);
    assert Immediate(w - CALL, pfx) == Immediate(w, pfx);
    assert (acts + [Call(Immediate(w, pfx))])[..|acts|] == acts;
  }

  lemma {:induction false} JumpWord(w: nat, pfx: u32)
    requires w < 0x2000
    ensures ActsOf1(w, pfx) == [Jump(Immediate(w, pfx))] && PfxOf1(w, pfx) == 0
  {
    assert w / 0x2000 == 0 && w / 0x8000 == 0;
  }

  lemma {:induction false} PatchedWord(bd: Board, m: Cells, start: nat, pc: nat, x: u32, m': Cells)
    requires start < pc && pc - 1 < CODE_LIMIT && bd.Readable() && bd.writeIor((pc - 1) / 2) == 0
    requires m' == Store(bd, m, PcSlot(pc - 1), x).1
    ensures Fetch(bd, m, PcSlot(pc - 1)) == (0, Half(m, pc - 1)) && Store(bd, m, PcSlot(pc - 1), x).0 == 0
    ensures Words(m, start, pc) == Words(m, start, pc - 1) + [Half(m, pc - 1)]
    ensures Words(m', start, pc) == Words(m, start, pc - 1) + [x % 0x1_0000]
  {
    SlotParts(pc - 1);
    FetchHalf(bd, m, pc - 1);
    StoredWord(bd, m, start, pc - 1, x, m');
    WordsMore(m, start, pc - 1);
  }

  lemma {:induction false} PatchedActs(bd: Board, m: Cells, start: nat, pc: nat, x: u32, m': Cells)
    requires start < pc && pc - 1 < CODE_LIMIT && bd.Readable() && bd.writeIor((pc - 1) / 2) == 0
    requires Half(m, pc - 1) / 0x2000 == 1 && m' == Store(bd, m, PcSlot(pc - 1), x).1
    requires var w := Fetch(bd, m, PcSlot(pc - 1)).1; x == if w / CALL % 2 == 1 then w - CALL else w
    ensures Store(bd, m, PcSlot(pc - 1), x).0 == 0
    ensures |Words(m, start, pc)| > 0 && Words(m', start, pc) == WithJump(Words(m, start, pc))
    ensures EndsInCall(ActsOf(Words(m, start, pc), 0))
    ensures ActsOf(Words(m', start, pc), 0) == AsJump(ActsOf(Words(m, start, pc), 0))
    ensures PfxOf(Words(m', start, pc), 0) == 0
  {
    hide ActsOf, PfxOf, Words, Half, PcSlot, Fetch, Store;
    PatchedWord(bd, m, start, pc, x, m');
    CallToJump(Words(m, start, pc - 1), Half(m, pc - 1));
  }

  lemma {:induction false} NoPending(all: seq<Act>, acts: seq<Act>)
    requires all == acts + Live(Slots(0))
    ensures all == acts
  {
    NoSlots();
    assert acts + [] == acts;
  }

  predicate EndsInCall(acts: seq<Act>) {
    acts != [] && acts[|acts| - 1].Call?
  }

  /** The code whose last word, a call, lost its call bit. */
  function WithJump(code: seq<nat>): seq<nat>
    requires code != []
  {
    var last := |code| - 1;
    code[..last] + [if code[last] / CALL % 2 == 1 then code[last] - CALL else code[last]]
  }

  function AsJump(acts: seq<Act>): seq<Act>
    requires EndsInCall(acts)
  {
    acts[..|acts| - 1] + [Jump(acts[|acts| - 1].to)]
  }

  /** Code whose last word returns, does the last of the acts and leaves the return stack alone. */
  predicate EndsReturning(code: seq<nat>, acts: seq<Act>) {
    code != [] &&
    (var ws, w := code[..|code| - 1], code[|code| - 1];
     && IsGroup(w) && Returns(w) && RetFreeActs(Live(Slots(w)))
     && PfxOf(ws, 0) == 0 && ActsOf(ws, 0) + Live(Slots(w)) == acts)
  }

  lemma {:induction false} ReturnWord(instruction: nat)
    requires instruction < RET
    ensures IsGroup(GROUP + (instruction + RET)) && Returns(GROUP + (instruction + RET))
    ensures Slots(GROUP + (instruction + RET)) == Slots(instruction)
  {
    RetBit(instruction);
    GroupWord(RET + instruction);
  }

  datatype Item = Primitive(w: u32) | Literal(x: u32)

  function ItemActs1(item: Item): seq<Act> {
    match item
    case Primitive(w) => PrimitiveActs(w)
    case Literal(x) => LiteralActs(x)
  }

  function ItemActs(items: seq<Item>): seq<Act> {
    if items == [] then [] else ItemActs1(items[0]) + ItemActs(items[1..])
  }

  lemma {:induction false} ItemActsConcat(a: seq<Item>, b: seq<Item>)
    ensures ItemActs(a + b) == ItemActs(a) + ItemActs(b)
  {
    hide ItemActs1;
    if a == [] {
      assert a + b == b;
    } else {
      assert (a + b)[1..] == a[1..] + b;
      ItemActsConcat(a[1..], b);
      var x, y, z := ItemActs1(a[0]), ItemActs(a[1..]), ItemActs(b);
      assert x + (y + z) == x + y + z;
    }
  }

  lemma {:induction false} MoreItems(items: seq<Item>, n: nat)
    requires n < |items|
    ensures ItemActs(items[..n + 1]) == ItemActs(items[..n]) + ItemActs1(items[n])
  {
    hide ItemActs1;
    assert items[..n + 1] == items[..n] + [items[n]];
    ItemActsConcat(items[..n], [items[n]]);
    assert [items[n]][1..] == [];
    assert ItemActs1(items[n]) + [] == ItemActs1(items[n]);
  }

  /** The words of a call. Its prefix is shifted by 9, not 13. */
  function CallWords(xt: nat): seq<nat>
    requires xt < CODE_LIMIT
  {
    (if xt >= 0x2000 then [(PFX + xt / 0x200) % 0x1_0000] else []) + [CALL + xt % 0x2000]
  }

  lemma {:induction false} CallWord(xt: nat, pfx: u32)
    ensures PfxOf1(CALL + xt % 0x2000, pfx) == 0 && (CALL + xt % 0x2000) / 0x2000 == 1
    ensures ActsOf1(CALL + xt % 0x2000, pfx) == [Call(Immediate(xt, pfx))]
    ensures pfx == 0 ==> Immediate(xt, pfx) == xt % 0x2000
  {
    var w := CALL + xt % 0x2000;
    assert w / 0x2000 == 1 && w % 0x2000 == xt % 0x2000 && w / 0x8000 == 0;
  }

  /** A call to a near address decodes as that call. */
  lemma {:induction false} CallActs(code: seq<nat>, xt: nat)
    requires PfxOf(code, 0) == 0 && xt < CODE_LIMIT
    ensures xt < 0x2000 ==> ActsOf(code + CallWords(xt), 0) == ActsOf(code, 0) + [Call(xt)]
  {
    hide ActsOf, PfxOf, ActsOf1, PfxOf1;
    if xt < 0x2000 {
      assert CallWords(xt) == [CALL + xt % 0x2000];
      AppendWord(code, CALL + xt % 0x2000);
      CallWord(xt, 0);
    }
  }

  lemma {:induction false} NotZero(pc: nat)
    requires pc < CODE_LIMIT
    ensures PcSlot(pc) != 0
  {}

  /** What a literal compiles to. */
  function LiteralActs(x: u32): seq<Act> {
    if x >= 0x8000_0000 then [Push(0xFFFF_FFFF - x), Op(INV)] else [Push(x)]
  }

  /** Bits 29 and 30 of a primitive's word say that it is wide, or a macro. */
  function PrimitiveActs(w: u32): seq<Act> {
    if w / 0x2000_0000 % 2 == 1 then [Wide(w % 0x1_0000)]
    else if w / 0x4000_0000 % 2 == 1 then Live(Slots(w))
    else Live([w / 0x200 % 32])
  }

  lemma {:induction false} OneLive(op: nat)
    ensures Live([op]) == if op == NOP then [] else [Op(op)]
  {
    assert [op][1..] == [];
  }

  lemma {:induction false} Macro(a: seq<Act>, w: u32)
    ensures a + Live([w / 0x200 % 32]) + Live([w / 0x10 % 32]) + Live([w % 16]) == a + Live(Slots(w))
  {
    Live3(w / 0x200 % 32, w / 0x10 % 32, w % 16);
    var x, y, z := Live([w / 0x200 % 32]), Live([w / 0x10 % 32]), Live([w % 16]);
    assert a + x + y + z == a + (x + y + z);
  }

  lemma {:induction false} SmallWords(x: u32)
    ensures forall i :: 0 <= i < |LitWords(x)| ==> LitWords(x)[i] < 0x1_0000
  {
    SmallPrefixes(x / 0x2000);
  }

  lemma {:induction false} SmallPrefixes(y: nat)
    ensures forall i :: 0 <= i < |Prefixes(y)| ==> Prefixes(y)[i] < 0x1_0000
  {
    if y == 0 {
    } else {
      SmallPrefixes(y / 0x400);
    }
  }

  lemma {:induction false} LitWordsAre(x: u32)
    ensures LitWords(x) == Prefixes(x / 0x2000) + [LIT + x % 0x2000]
  {}

  lemma {:induction false} NoPrefixes(out: seq<u32>)
    ensures Prefixes(0) + out == out
  {}

  // ---- jumps and far calls -------------------------------------------------------------------

  /** The words storeJump stores: a prefix, unless the address fits the jump. */
  function JumpWords(to: nat): seq<nat>
    requires to < CODE_LIMIT
  {
    (if to >= 0x1FFF then [PFX + to / 0x2000] else []) + [to % 0x2000]
  }

  /** Run from prefix 0, they jump there, for every 23-bit address. */
  lemma {:induction false} JumpRoundTrip(to: nat)
    requires to < CODE_LIMIT
    ensures ActsOf(JumpWords(to), 0) == [Jump(to)] && PfxOf(JumpWords(to), 0) == 0
  {
    hide ActsOf, PfxOf, ActsOf1, PfxOf1;
    var v, w := to / 0x2000, to % 0x2000;
    JumpWord(w, v);
    OneWord(w, v);
    assert Immediate(w, v) == to;
    assert [] + [Jump(to)] == [Jump(to)];
    if to >= 0x1FFF {
      PrefixWord(v, 0);
      OneWord(PFX + v, 0);
      ActsOfConcat([PFX + v], [w], 0);
    } else {
      assert v == 0 && JumpWords(to) == [w];
    }
  }

  /** storeJump: at a label's two slots, in memory that can be written there. */
  method StoreJump(bd: Board, mem: Cells, at: nat, to: nat) returns (ior: int, mem': Cells)
    requires bd.Valid() && at + 1 < CODE_LIMIT && to < CODE_LIMIT
    ensures ior == 0 <==> forall k :: at <= k < at + |JumpWords(to)| ==> bd.writeIor(k / 2) == 0
    ensures ior == 0 ==> Words(mem', at, at + |JumpWords(to)|) == JumpWords(to)
    ensures ior == 0 ==> forall q: nat :: q < at || q >= at + |JumpWords(to)| ==> Half(mem', q) == Half(mem, q)
  {
    hide Half, PcSlot, Words, FieldPlus;
    var slot, here := PcSlot(at), at;
    mem' := mem;
    if to >= 0x1FFF {
      var inst := if to / 0x40_0000 % 2 == 1 then PFX + 0x200 else PFX;
      ior, mem' := StoreHalf(bd, mem, at, inst + to / 0x2000 % 0x200);
      if ior != 0 {
        return;
      }
      NextSlot(at);
      slot, here := FieldPlus(slot), at + 1;
      assert inst + to / 0x2000 % 0x200 == PFX + to / 0x2000 by { TopBit(to); }
    }
    ghost var between := mem';
    ior, mem' := StoreHalf(bd, mem', here, to % 0x2000);
    assert slot == PcSlot(here);
    if ior == 0 {
      JumpStored(mem', at, to);
    }
  }

  lemma {:induction false} TopBit(to: nat)
    requires to < CODE_LIMIT
    ensures (if to / 0x40_0000 % 2 == 1 then 0x200 else 0) + to / 0x2000 % 0x200 == to / 0x2000
  {
    var v := to / 0x2000;
    assert v / 0x200 == to / 0x40_0000;
  }

  method StoreHalf(bd: Board, mem: Cells, at: nat, x: u32) returns (ior: int, mem': Cells)
    requires at < CODE_LIMIT && x < 0x1_0000
    ensures ior == bd.writeIor(at / 2)
    ensures ior == 0 ==> Half(mem', at) == x && forall q: nat :: q != at ==> Half(mem', q) == Half(mem, q)
  {
    hide Half, Store, PcSlot;
    StoreIor(bd, mem, at, x);
    var done := Store(bd, mem, PcSlot(at), x);
    ior, mem' := done.0, done.1;
    if ior == 0 {
      forall q: nat ensures Half(mem', q) == if q == at then x else Half(mem, q) {
        SlotIsHalf(bd, mem, at, x, q);
      }
    }
  }

  lemma {:induction false} JumpStored(m: Cells, at: nat, to: nat)
    requires to < CODE_LIMIT
    requires if to >= 0x1FFF then Half(m, at) == PFX + to / 0x2000 && Half(m, at + 1) == to % 0x2000
             else Half(m, at) == to % 0x2000
    ensures Words(m, at, at + |JumpWords(to)|) == JumpWords(to)
  {
    hide Half;
    WordsMore(m, at, at);
    if to >= 0x1FFF {
      WordsMore(m, at, at + 1);
    }
  }

  /** Where a call compiled to xt goes from prefix 0. */
  function CallTarget(xt: nat): u32
    requires xt < CODE_LIMIT
  {
    Immediate(xt, if xt >= 0x2000 then PfxOf1((PFX + xt / 0x200) % 0x1_0000, 0) else 0)
  }

  /** The words compiled end in a call, which goes to xt just when xt has 13 bits; only then do they do nothing else. */
  lemma {:induction false} CallReachesNearOnly(xt: nat)
    requires xt < CODE_LIMIT
    ensures var acts := ActsOf(CallWords(xt), 0);
            && acts != [] && acts[|acts| - 1] == Call(CallTarget(xt))
            && (CallTarget(xt) == xt <==> xt < 0x2000)
            && (acts == [Call(xt)] <==> xt < 0x2000)
  {
    hide ActsOf1, PfxOf1, Live;
    var call := CALL + xt % 0x2000;
    if xt < 0x2000 {
      CallWord(xt, 0);
      LastCall([], call, 0);
    } else {
      var first := (PFX + xt / 0x200) % 0x1_0000;
      var pfx := PfxOf1(first, 0);
      CallWord(xt, pfx);
      LastCall([first], call, 0);
      FarPrefix(xt / 0x200);
      assert xt / 0x200 > xt / 0x2000 > 0;
      FarImmediate(xt, pfx);
    }
  }

  lemma {:induction false} LastCall(before: seq<nat>, w: nat, pfx: u32)
    requires |before| <= 1
    ensures ActsOf(before + [w], pfx)
            == (if before == [] then [] else ActsOf1(before[0], pfx))
               + ActsOf1(w, if before == [] then pfx else PfxOf1(before[0], pfx))
  {
    hide ActsOf1, PfxOf1;
    assert ActsOf([], 0) == [] && [w][1..] == [];
    if before == [] {
      assert before + [w] == [w];
    } else {
      var p := PfxOf1(before[0], pfx);
      assert before + [w] == [before[0], w] && [before[0], w][1..] == [w];
      assert ActsOf([w], p) == ActsOf1(w, p) + ActsOf([], PfxOf1(w, p));
      assert ActsOf1(w, p) + [] == ActsOf1(w, p);
    }
  }

  lemma {:induction false} FarImmediate(xt: nat, pfx: u32)
    requires 0x2000 <= xt < CODE_LIMIT && (pfx == 0 || pfx == xt / 0x200) && xt / 0x200 < 0x4000
    ensures Immediate(xt, pfx) != xt
  {
    if pfx == 0 {
      assert Immediate(xt, pfx) == xt % 0x2000;
    } else {
      assert Immediate(xt, pfx) / 0x2000 == pfx;
    }
  }

  lemma {:induction false} FarPrefix(v: nat)
    requires 0x10 <= v < 0x4000
    ensures PfxOf1((PFX + v) % 0x1_0000, 0) == if v < 0x400 then v else 0
  {
    var w := (PFX + v) % 0x1_0000;
    if v < 0x400 {
      PrefixWord(v, 0);
    } else if v < 0x800 {
      assert w == PFX + v && w / 0x2000 == 3;
      assert w / 0x200 == 62 || w / 0x200 == 63;
    } else {
      assert w == PFX + v && w / 0x8000 == 1;
    }
  }
}
