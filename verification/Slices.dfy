/**
 * Memory as the virtual machine addresses it (src/vm.c): slices of 32-bit
 * cells, and the 16-bit slices that hold code. Shifts and masks are written as
 * division and remainder.
 */
module Slices {
  import opened Arithmetic

  /** A memory or a stack: every address has a cell. */
  type Cells = nat -> u32

  function Put(m: Cells, a: nat, x: u32): Cells {
    (k: nat) => if k == a then x else m(k)
  }

  // ---- slices of a cell ------------------------------------------------------------------

  function Pow2(n: nat): (p: nat)
    ensures p > 0
  {
    if n == 0 then 1 else 2 * Pow2(n - 1)
  }

  lemma {:induction false} Pow2Sum(m: nat, n: nat)
    ensures Pow2(m + n) == Pow2(m) * Pow2(n)
  {
    if m == 0 {
    } else {
      var a, b := Pow2(m - 1), Pow2(n);
      Pow2Sum(m - 1, n);
      assert m - 1 + n == m + n - 1;
      Doubled(a, b);
    }
  }

  lemma {:induction false} Doubled(a: nat, b: nat)
    ensures 2 * (a * b) == (2 * a) * b
  {}

  /** The bits shift .. shift + size - 1; a size of 0 stands for the whole cell. */
  function Slice(cell: u32, size: nat, shift: nat): u32 {
    if size == 0 then cell
    else
      var p, q := Pow2(shift), Pow2(size);
      SliceLe(cell, p, q);
      cell / p % q
  }

  lemma {:induction false} SliceLe(x: nat, p: nat, q: nat)
    requires p > 0 && q > 0
    ensures x / p % q <= x
  {
    assert x / p <= x by {
      if x / p > x {
        TimesLe(x + 1, x / p, p);
        TimesLe(1, p, x + 1);
      }
    }
  }

  function Times(a: nat, b: nat): nat { a * b }

  function Replaced(cell: nat, p: nat, q: nat, d: nat): nat
    requires p > 0 && q > 0
  {
    Times(Times(cell / p / q, q) + d, p) + cell % p
  }

  /** The cell with those bits replaced; bits beyond its top are lost. */
  function Merged(cell: u32, size: nat, shift: nat, data: u32): u32 {
    if size == 0 then data
    else
      var p, q := Pow2(shift), Pow2(size);
      Replaced(cell, p, q, data % q) % B
  }

  lemma {:induction false} Below(x: nat, p: nat, z: nat)
    requires p > 0 && x < Times(z, p)
    ensures x / p < z
  {
    if x / p >= z {
      TimesLe(z, x / p, p);
    }
  }

  lemma {:induction false} Unpacked(n: nat, x: nat, p: nat, lo: nat)
    requires lo < p && n == Times(x, p) + lo
    ensures n / p == x && n % p == lo
  {
    Quotient(n, p, x, lo);
  }

  lemma {:induction false} Room(x: nat, lo: nat, p: nat, z: nat)
    requires x < z && lo < p
    ensures Times(x, p) + lo < Times(z, p)
  {
    TimesLe(x + 1, z, p);
    assert (x + 1) * p == x * p + p;
  }

  lemma {:induction false} MergeParts(cell: nat, p: nat, q: nat, z: nat, zq: nat, d: nat)
    requires p > 0 && q > 0 && d < q && zq == Times(z, q) && cell < Times(zq, p)
    ensures Replaced(cell, p, q, d) < Times(zq, p)
    ensures Replaced(cell, p, q, d) / p % q == d && Replaced(cell, p, q, d) % p == cell % p
    ensures Replaced(cell, p, q, d) / p / q == cell / p / q
  {
    hide Times;
    var hi, lo := cell / p / q, cell % p;
    var x := Times(hi, q) + d;
    Below(cell, p, zq);
    Below(cell / p, q, z);
    Room(hi, d, q, z);
    Room(x, lo, p, zq);
    Unpacked(Replaced(cell, p, q, d), x, p, lo);
    Unpacked(x, hi, q, d);
  }

  lemma {:induction false} Pow32()
    ensures Pow2(32) == B
  {
    assert Pow2(8) == 0x100;
    Pow2Sum(8, 8);
    Pow2Sum(16, 16);
  }

  lemma {:induction false} CellParts(size: nat, shift: nat)
    requires size + shift <= 32
    ensures Pow2(32 - shift - size) * Pow2(size) * Pow2(shift) == B
  {
    Pow32();
    var rest := 32 - shift - size;
    Pow2Sum(rest, size);
    Pow2Sum(rest + size, shift);
    assert rest + size + shift == 32;
  }

  /** A stored slice reads back; the bits below it and above it stay. */
  lemma {:induction false} SliceLaw(cell: u32, size: nat, shift: nat, data: u32, p: nat, q: nat)
    requires 0 < size <= 32 - shift && p == Pow2(shift) && q == Pow2(size)
    ensures Slice(Merged(cell, size, shift, data), size, shift) == data % q
    ensures Merged(cell, size, shift, data) % p == cell % p
    ensures Merged(cell, size, shift, data) / p / q == cell / p / q
  {
    CellParts(size, shift);
    var z := Pow2(32 - shift - size);
    MergeParts(cell, p, q, z, Times(z, q), data % q);
    assert Merged(cell, size, shift, data) == Replaced(cell, p, q, data % q);
  }

  // ---- slice addresses --------------------------------------------------------------------

  // Width in bits 31:27 (0 is a whole cell), shift in 26:22, cell in 21:0.

  const CELLS: nat := 0x40_0000

  function SizeOf(addr: u32): nat { addr / 0x800_0000 }
  function ShiftOf(addr: u32): nat { addr / CELLS % 32 }
  function CellOf(addr: u32): nat { addr % CELLS }

  function SliceAddr(size: nat, shift: nat, cell: nat): u32
    requires size < 32
  {
    size * 0x800_0000 + shift % 32 * CELLS + cell % CELLS
  }

  /** vmFieldPlus: the next slice of the same width. */
  function FieldPlus(addr: u32): u32 {
    var size, shift := SizeOf(addr), ShiftOf(addr) + SizeOf(addr);
    if size == 0 then (addr + 1) % B
    else if shift + size > 32 then SliceAddr(size, (shift - 32) % 32, addr + 1)
    else SliceAddr(size, shift, addr)
  }

  /** Slices of a width that divides 32 follow each other: none overlaps the next or its cell's end. */
  lemma {:induction false} FieldPlusLaw(addr: u32)
    requires SizeOf(addr) in {1, 2, 4, 8, 16} && ShiftOf(addr) % SizeOf(addr) == 0
    ensures var next := FieldPlus(addr);
            SizeOf(next) == SizeOf(addr) && ShiftOf(next) % SizeOf(next) == 0 && ShiftOf(next) + SizeOf(next) <= 32
    ensures var next, last := FieldPlus(addr), ShiftOf(addr) + SizeOf(addr) == 32;
            && CellOf(next) == (if last then (CellOf(addr) + 1) % CELLS else CellOf(addr))
            && ShiftOf(next) == (if last then 0 else ShiftOf(addr) + SizeOf(addr))
  {
    var size, shift := SizeOf(addr), ShiftOf(addr);
    assert shift + size <= 32 by { Aligned(size, shift); }
    if shift + size < 32 {
      assert shift + size + size <= 32 by { Aligned(size, shift); }
      AddrParts(size, shift + size, addr);
    } else {
      AddrParts(size, 0, addr + 1);
    }
    Aligned(size, shift);
  }

  lemma {:induction false} Aligned(size: nat, shift: nat)
    requires size in {1, 2, 4, 8, 16} && shift < 32 && shift % size == 0
    ensures shift + size <= 32 && (shift + size < 32 ==> shift + size + size <= 32)
    ensures (shift + size) % size == 0
  {}

  lemma {:induction false} AddrParts(size: nat, shift: nat, cell: nat)
    requires size < 32 && shift < 32
    ensures SizeOf(SliceAddr(size, shift, cell)) == size && ShiftOf(SliceAddr(size, shift, cell)) == shift
    ensures CellOf(SliceAddr(size, shift, cell)) == cell % CELLS
  {}

  // ---- fetch and store ----------------------------------------------------------------------

  /** Stack capacity, and what page limits and guarded ranges say of a cell: 0 or an error. */
  datatype Board = Board(capacity: nat, readIor: nat -> int, writeIor: nat -> int) {
    predicate Valid() { capacity >= 32 }

    /** Cells that can be written can be read. */
    ghost predicate Readable() {
      forall c :: writeIor(c) == 0 ==> readIor(c) == 0
    }
  }

  /** vmFetch: a failed read leaves 0. */
  function Fetch(bd: Board, mem: Cells, addr: u32): (int, u32) {
    var ior := bd.readIor(CellOf(addr));
    if ior != 0 then (ior, 0) else (0, Slice(mem(CellOf(addr)), SizeOf(addr), ShiftOf(addr)))
  }

  /** vmStore */
  function Store(bd: Board, mem: Cells, addr: u32, data: u32): (int, Cells) {
    var ior := bd.writeIor(CellOf(addr));
    if ior != 0 then (ior, mem)
    else (0, Put(mem, CellOf(addr), Merged(mem(CellOf(addr)), SizeOf(addr), ShiftOf(addr), data)))
  }

  // ---- code -----------------------------------------------------------------------------------

  const CODE_LIMIT: nat := 0x80_0000     // code addresses are 23 bits

  /** The instruction at a code address: two in a cell, the even one in the lower half. */
  function Half(mem: Cells, pc: nat): u32 {
    if pc % 2 == 0 then mem(pc / 2) % 0x1_0000 else mem(pc / 2) / 0x1_0000
  }

  /** pcSlot: the 16-bit slice that holds it. */
  function PcSlot(pc: nat): u32
    requires pc < CODE_LIMIT
  {
    SliceAddr(16, pc % 2 * 16, pc / 2)
  }

  lemma {:induction false} Pow16()
    ensures Pow2(0) == 1 && Pow2(16) == 0x1_0000
  {
    assert Pow2(8) == 0x100;
    Pow2Sum(8, 8);
  }

  lemma {:induction false} SlotParts(pc: nat)
    requires pc < CODE_LIMIT
    ensures SizeOf(PcSlot(pc)) == 16 && ShiftOf(PcSlot(pc)) == pc % 2 * 16 && CellOf(PcSlot(pc)) == pc / 2
  {
    AddrParts(16, pc % 2 * 16, pc / 2);
  }

  lemma {:induction false} HalfMerged(cell: u32, x: u32)
    ensures Merged(cell, 16, 0, x) % 0x1_0000 == x % 0x1_0000 && Merged(cell, 16, 0, x) / 0x1_0000 == cell / 0x1_0000
    ensures Merged(cell, 16, 16, x) % 0x1_0000 == cell % 0x1_0000 && Merged(cell, 16, 16, x) / 0x1_0000 == x % 0x1_0000
    ensures Slice(cell, 16, 0) == cell % 0x1_0000 && Slice(cell, 16, 16) == cell / 0x1_0000
  {
    Pow16();
    SliceLaw(cell, 16, 0, x, 1, 0x1_0000);
    SliceLaw(cell, 16, 16, x, 0x1_0000, 0x1_0000);
  }

  /** The compiler's 16-bit slices are the interpreter's instructions. */
  lemma {:induction false} SlotIsHalf(bd: Board, mem: Cells, pc: nat, x: u32, q: nat)
    requires pc < CODE_LIMIT && Store(bd, mem, PcSlot(pc), x).0 == 0
    ensures Half(Store(bd, mem, PcSlot(pc), x).1, q) == if q == pc then x % 0x1_0000 else Half(mem, q)
  {
    SlotParts(pc);
    HalfMerged(mem(pc / 2), x);
  }

  lemma {:induction false} FetchHalf(bd: Board, mem: Cells, pc: nat)
    requires pc < CODE_LIMIT && bd.readIor(pc / 2) == 0
    ensures Fetch(bd, mem, PcSlot(pc)) == (0, Half(mem, pc))
  {
    SlotParts(pc);
    HalfMerged(mem(pc / 2), 0);
  }

  lemma {:induction false} NextSlot(pc: nat)
    requires pc + 1 < CODE_LIMIT
    ensures FieldPlus(PcSlot(pc)) == PcSlot(pc + 1)
  {
    var addr := PcSlot(pc);
    SlotParts(pc);
    FieldPlusLaw(addr);
    assert pc % 2 == 1 ==> (pc + 1) / 2 == pc / 2 + 1;
  }
}
