/**
 * The block buffers (src/lfblocks.c): a few blocks in RAM, the least recently
 * used one reused. Storage may fail: a failed read leaves anything in the
 * buffer, a failed write leaves anything in the block.
 */
module Cache {
  const UNASSIGNED: nat := 0xFFFF_FFFF
  const CLOCK: nat := 0x1_0000_0000

  const ERR_BLOCK_READ_ERROR: int := -33
  const ERR_BLOCK_WRITE_ERROR: int := -34
  const ERR_BLK_BOUNDS: int := -92

  type Block = seq<nat>

  datatype BufState = BufState(id: nat, dirty: bool, used: nat)

  /** Some buffer holds the block, modified. */
  predicate HeldDirty(bufs: seq<BufState>, b: nat) {
    exists i :: 0 <= i < |bufs| && bufs[i].id == b && bufs[i].dirty
  }

  predicate Held(bufs: seq<BufState>, b: nat) {
    exists i :: 0 <= i < |bufs| && bufs[i].id == b
  }

  /** The buffers are the same blocks' as before, */
  predicate SameIds(was: seq<BufState>, bufs: seq<BufState>) {
    |was| == |bufs| && forall i :: 0 <= i < |was| ==> was[i].id == bufs[i].id
  }

  /** or but for this one. */
  predicate OtherIds(was: seq<BufState>, bufs: seq<BufState>, k: nat) {
    |was| == |bufs| && forall i :: 0 <= i < |was| && i != k ==> was[i].id == bufs[i].id
  }

  /** No block is in two buffers. */
  predicate Distinct(bufs: seq<BufState>) {
    forall i, j :: 0 <= i < j < |bufs| && bufs[i].id == bufs[j].id ==> bufs[i].id == UNASSIGNED
  }

  /**
   * view is what the user sees of the blocks: a buffer's contents if one holds
   * the block, else storage. loose is a block whose buffer may have been changed
   * and not yet marked (UNASSIGNED if there is none).
   */
  ghost predicate Linked(bufs: seq<BufState>, ram: seq<Block>, storage: seq<Block>, view: seq<Block>, loose: nat) {
    && |ram| == |bufs| && |view| == |storage| <= UNASSIGNED
    && Distinct(bufs)
    && (forall i :: 0 <= i < |bufs| && bufs[i].id == UNASSIGNED ==> !bufs[i].dirty)
    && (forall i :: 0 <= i < |bufs| && bufs[i].id < |view| ==> ram[i] == view[bufs[i].id])
    && (forall b :: 0 <= b < |view| && b != loose && !HeldDirty(bufs, b) ==> storage[b] == view[b])
  }

  /** Which access, counted from 1, was the last one of the block; 0 if there was none. */
  function LastUse(used: seq<nat>, b: nat): (n: nat)
    ensures n <= |used|
    ensures n == 0 <==> b !in used
    ensures n > 0 ==> used[n - 1] == b && forall k :: n <= k < |used| ==> used[k] != b
  {
    if used == [] then 0
    else if used[|used| - 1] == b then |used|
    else LastUse(used[..|used| - 1], b)
  }

  /** used is the blocks accessed so far, in order: the stamps are the places in it, on a clock that wraps. */
  ghost predicate Timed(bufs: seq<BufState>, used: seq<nat>, clock: nat) {
    && clock == |used| % CLOCK
    && (forall i :: 0 <= i < |bufs| && bufs[i].id != UNASSIGNED ==>
          bufs[i].id in used && bufs[i].used == LastUse(used, bufs[i].id) % CLOCK)
  }

  /** No buffer is free, and buffer i's block was used before each of the others'. */
  ghost predicate Oldest(bufs: seq<BufState>, used: seq<nat>, i: nat) {
    && i < |bufs|
    && forall j :: 0 <= j < |bufs| && j != i ==> bufs[j].id != UNASSIGNED && LastUse(used, bufs[i].id) < LastUse(used, bufs[j].id)
  }

  /** A block whose buffer was given up is the one used longest ago. */
  ghost predicate GivesUpOldest(was: seq<BufState>, used: seq<nat>, bufs: seq<BufState>) {
    forall i :: 0 <= i < |was| && was[i].id != UNASSIGNED && !Held(bufs, was[i].id) ==> Oldest(was, used, i)
  }

  /** The buffers hold the blocks used last: one that was used and isn't held was used before each that is, and none is free. */
  ghost predicate HoldsRecent(bufs: seq<BufState>, used: seq<nat>) {
    forall b, i :: b in used && !Held(bufs, b) && b != UNASSIGNED && 0 <= i < |bufs| ==>
      bufs[i].id != UNASSIGNED && LastUse(used, b) < LastUse(used, bufs[i].id)
  }

  /** A free buffer taken gives up no other block; nor does one that keeps its block. */
  lemma {:induction false} FreeTaken(was: seq<BufState>, used: seq<nat>, bufs: seq<BufState>, i: nat, next: BufState)
    requires GivesUpOldest(was, used, bufs) && i < |bufs| && (bufs[i].id == UNASSIGNED || bufs[i].id == next.id)
    ensures GivesUpOldest(was, used, bufs[i := next])
  {
    hide Oldest;
    forall j | 0 <= j < |was| && was[j].id != UNASSIGNED && !Held(bufs[i := next], was[j].id) ensures Oldest(was, used, j) {
      if Held(bufs, was[j].id) {
        var k :| 0 <= k < |bufs| && bufs[k].id == was[j].id;
        assert bufs[i := next][k].id == was[j].id;
      }
    }
  }

  /** An access of a block that takes no other's buffer but the oldest's. */
  lemma {:induction false} RecentMore(was: seq<BufState>, used: seq<nat>, bufs: seq<BufState>, i: nat, blk: nat)
    requires HoldsRecent(was, used) && GivesUpOldest(was, used, bufs) && blk != UNASSIGNED
    requires OtherIds(was, bufs, i) && i < |bufs| && bufs[i].id == blk
    ensures HoldsRecent(bufs, used + [blk])
  {
    hide LastUse;
    forall b, j | b in used + [blk] && !Held(bufs, b) && b != UNASSIGNED && 0 <= j < |bufs|
      ensures bufs[j].id != UNASSIGNED && LastUse(used + [blk], b) < LastUse(used + [blk], bufs[j].id)
    {
      LastUseMore(used, blk, b);
      LastUseMore(used, blk, bufs[j].id);
      if j != i && Held(was, b) {
        var m :| 0 <= m < |was| && was[m].id == b;
        assert Oldest(was, used, m);
      }
    }
  }

  /** Before the clock wraps: a block given up is the one used longest ago, and the buffers go on holding those used last. */
  ghost predicate Lru(was: seq<BufState>, used: seq<nat>, bufs: seq<BufState>, used': seq<nat>, sure: bool) {
    |used| < CLOCK ==>
      && (used != [] ==> GivesUpOldest(was, used, bufs))
      && (sure && HoldsRecent(was, used) ==> HoldsRecent(bufs, used'))
  }

  lemma {:induction false} AccessLru(was: seq<BufState>, used: seq<nat>, bufs: seq<BufState>, i: nat, blk: nat)
    requires i < |bufs| && bufs[i].id == blk != UNASSIGNED
    requires used != [] && |used| < CLOCK ==> GivesUpOldest(was, used, bufs) && OtherIds(was, bufs, i)
    ensures Lru(was, used, bufs, used + [blk], true)
  {
    if used == [] {
      hide LastUse;
      assert Held(bufs, blk);
    } else if |used| < CLOCK && HoldsRecent(was, used) {
      RecentMore(was, used, bufs, i, blk);
    }
  }

  /** Which blocks the buffers hold is all that matters. */
  lemma {:induction false} LruAlike(was: seq<BufState>, used: seq<nat>, bufs: seq<BufState>, used': seq<nat>, sure: bool, next: seq<BufState>)
    requires Lru(was, used, bufs, used', sure) && SameIds(bufs, next)
    ensures Lru(was, used, next, used', sure)
  {
    hide Oldest;
    assert forall b :: Held(bufs, b) <==> Held(next, b);
  }

  lemma {:induction false} LruSame(was: seq<BufState>, used: seq<nat>, bufs: seq<BufState>)
    requires SameIds(was, bufs)
    ensures Lru(was, used, bufs, used, true) && Lru(was, used, bufs, used, false)
  {
    hide Oldest;
    assert forall b :: Held(was, b) <==> Held(bufs, b);
  }

  /** The blocks accessed, after one more command. */
  function Accessed(used: seq<nat>, command: Command, out: Outcome): seq<nat> {
    if out.Failed? then used
    else
      match command
      case Reading(blk) => used + [blk]
      case Modifying(blk, _) => used + [blk]
      case Overwriting(blk, _) => used + [blk]
      case Saving => used
      case Flushing => []
  }

  function AccessedBy(used: seq<nat>, commands: seq<Command>, outcomes: seq<Outcome>): seq<nat>
    requires |commands| == |outcomes|
  {
    if commands == [] then used
    else
      var n := |commands| - 1;
      Accessed(AccessedBy(used, commands[..n], outcomes[..n]), commands[n], outcomes[n])
  }

  lemma {:induction false} AccessedMore(used: seq<nat>, commands: seq<Command>, outcomes: seq<Outcome>, command: Command, out: Outcome)
    requires |commands| == |outcomes|
    ensures AccessedBy(used, commands + [command], outcomes + [out]) == Accessed(AccessedBy(used, commands, outcomes), command, out)
  {
    assert (commands + [command])[..|commands|] == commands && (outcomes + [out])[..|outcomes|] == outcomes;
  }

  /** Command k of a run, before the clock wraps: a block given up (by no flush) is the one accessed longest ago. */
  ghost predicate TurnLru(used: seq<nat>, commands: seq<Command>, outcomes: seq<Outcome>, held: seq<seq<BufState>>, k: nat)
    requires k < |commands| == |outcomes| && |held| == |commands| + 1
  {
    var u := AccessedBy(used, commands[..k], outcomes[..k]);
    0 < |u| < CLOCK && !commands[k].Flushing? ==> GivesUpOldest(held[k], u, held[k + 1])
  }

  ghost predicate NoWrap(used: seq<nat>, commands: seq<Command>, outcomes: seq<Outcome>)
    requires |commands| == |outcomes|
  {
    forall k :: 0 <= k < |commands| ==> |AccessedBy(used, commands[..k], outcomes[..k])| < CLOCK
  }

  lemma {:induction false} NothingYet(v: seq<Block>, used: seq<nat>)
    ensures Agrees(v, [], [], v) && AccessedBy(used, [], []) == used
  {}

  lemma {:induction false} TurnsMore(
      used0: seq<nat>, commands: seq<Command>, outcomes: seq<Outcome>, held: seq<seq<BufState>>,
      command: Command, out: Outcome, bufs: seq<BufState>, used: seq<nat>, used': seq<nat>, sure: bool)
    requires |commands| == |outcomes| && |held| == |commands| + 1 && used == AccessedBy(used0, commands, outcomes)
    requires forall k :: 0 <= k < |commands| ==> TurnLru(used0, commands, outcomes, held, k)
    requires if command.Flushing? && out.Done? then used' == [] else Lru(held[|commands|], used, bufs, used', sure)
    ensures forall k :: 0 <= k <= |commands| ==> TurnLru(used0, commands + [command], outcomes + [out], held + [bufs], k)
    ensures NoWrap(used0, commands + [command], outcomes + [out]) ==> NoWrap(used0, commands, outcomes)
    ensures NoWrap(used0, commands + [command], outcomes + [out]) && sure && HoldsRecent(held[|commands|], used) ==> HoldsRecent(bufs, used')
  {
    hide GivesUpOldest, AccessedBy;
    var n := |commands|;
    var cs, os, hs := commands + [command], outcomes + [out], held + [bufs];
    forall k | 0 <= k <= n
      ensures cs[..k] == commands[..k] && os[..k] == outcomes[..k] && (k == n ==> commands[..k] == commands && outcomes[..k] == outcomes)
    {}
    forall k | 0 <= k <= n ensures TurnLru(used0, cs, os, hs, k) {
      assert k < n ==> TurnLru(used0, commands, outcomes, held, k);
    }
    if NoWrap(used0, cs, os) {
      forall k | 0 <= k <= n ensures |AccessedBy(used0, cs[..k], os[..k])| < CLOCK {}
    }
  }

  /** The first buffer with the lowest stamp, as it is after the clock wrapped too. */
  predicate FirstLowest(bufs: seq<BufState>, i: nat) {
    i < |bufs| && forall j :: 0 <= j < |bufs| ==> bufs[i].used <= bufs[j].used && (j < i ==> bufs[i].used < bufs[j].used)
  }

  lemma {:induction false} StampIs(bufs: seq<BufState>, used: seq<nat>, clock: nat, i: nat)
    requires Timed(bufs, used, clock) && |used| < CLOCK && i < |bufs| && bufs[i].id != UNASSIGNED
    ensures bufs[i].id in used && bufs[i].used == LastUse(used, bufs[i].id)
  {}

  lemma {:induction false} LowestIsOldest(bufs: seq<BufState>, used: seq<nat>, clock: nat, i: nat)
    requires Timed(bufs, used, clock) && Distinct(bufs) && !Held(bufs, UNASSIGNED) && |used| < CLOCK && i < |bufs|
    requires forall j :: 0 <= j < |bufs| ==> bufs[i].used <= bufs[j].used
    ensures Oldest(bufs, used, i)
  {
    forall j | 0 <= j < |bufs| && j != i
      ensures bufs[j].id != UNASSIGNED && LastUse(used, bufs[i].id) < LastUse(used, bufs[j].id)
    {
      hide LastUse, Timed;
      assert bufs[i].used <= bufs[j].used && bufs[i].id != UNASSIGNED && bufs[j].id != UNASSIGNED;
      StampIs(bufs, used, clock, i);
      StampIs(bufs, used, clock, j);
      LastUseApart(used, bufs[i].id, bufs[j].id);
    }
  }

  lemma {:induction false} OldestGivenUp(bufs: seq<BufState>, used: seq<nat>, i: nat, next: BufState)
    requires Oldest(bufs, used, i)
    ensures GivesUpOldest(bufs, used, bufs[i := next])
  {
    assert i < |bufs|;
    hide Oldest;
    forall j | 0 <= j < |bufs| && j != i ensures Held(bufs[i := next], bufs[j].id) {
      assert bufs[i := next][j].id == bufs[j].id;
    }
  }

  lemma {:induction false} NoneGivenUp(bufs: seq<BufState>, used: seq<nat>)
    ensures GivesUpOldest(bufs, used, bufs)
  {}

  lemma {:induction false} LastUseMore(used: seq<nat>, id: nat, b: nat)
    ensures LastUse(used + [id], b) == if b == id then |used| + 1 else LastUse(used, b)
  {
    assert (used + [id])[..|used|] == used;
  }

  /** Two blocks' last uses are different. */
  lemma {:induction false} LastUseApart(used: seq<nat>, a: nat, b: nat)
    requires a != b && a in used
    ensures LastUse(used, a) != LastUse(used, b)
  {}

  lemma {:induction false} ClockMore(n: nat)
    ensures (n % CLOCK + 1) % CLOCK == (n + 1) % CLOCK
  {}

  /** The access that makes a block the newest leaves the others in their order. */
  lemma {:induction false} TimedMore(bufs: seq<BufState>, used: seq<nat>, clock: nat, i: nat, id: nat)
    requires Timed(bufs, used, clock) && Distinct(bufs) && i < |bufs|
    requires bufs[i].id == id || (bufs[i].id == UNASSIGNED && !Held(bufs, id))
    ensures Timed(bufs[i := BufState(id, bufs[i].dirty, (clock + 1) % CLOCK)], used + [id], (clock + 1) % CLOCK)
  {
    hide LastUse;
    var next := bufs[i := BufState(id, bufs[i].dirty, (clock + 1) % CLOCK)];
    ClockMore(|used|);
    assert |used + [id]| == |used| + 1;
    forall j | 0 <= j < |next| && next[j].id != UNASSIGNED
      ensures next[j].id in used + [id] && next[j].used == LastUse(used + [id], next[j].id) % CLOCK
    {
      LastUseMore(used, id, next[j].id);
      if j != i {
        assert next[j] == bufs[j] && bufs[j].id != id && bufs[j].id in used;
      } else {
        assert LastUse(used + [id], id) == |used| + 1 && next[j].used == (|used| + 1) % CLOCK;
      }
    }
  }

  datatype Command =
    | Reading(blk: nat)
    | Modifying(blk: nat, change: Block -> Block)
    | Overwriting(blk: nat, contents: Block)
    | Saving
    | Flushing

  datatype Outcome = Done(data: Block) | Failed(err: int)

  /** The block it names, if any, is there. */
  predicate InBounds(command: Command, blocks: nat) {
    match command
    case Reading(blk) => blk < blocks
    case Modifying(blk, _) => blk < blocks
    case Overwriting(blk, _) => blk < blocks
    case Saving => true
    case Flushing => true
  }

  /** What a command does to plain storage. */
  ghost predicate Does(v: seq<Block>, command: Command, out: Outcome, v': seq<Block>) {
    if out.Failed? then v' == v
    else
      match command
      case Reading(blk) => blk < |v| && out.data == v[blk] && v' == v
      case Modifying(blk, change) => blk < |v| && v' == v[blk := change(v[blk])]
      case Overwriting(blk, contents) => blk < |v| && v' == v[blk := contents]
      case Saving => v' == v
      case Flushing => v' == v
  }

  ghost predicate Agrees(v: seq<Block>, commands: seq<Command>, outcomes: seq<Outcome>, v': seq<Block>)
    decreases |commands|
  {
    && |commands| == |outcomes|
    && if commands == [] then v' == v
       else exists mid :: Does(v, commands[0], outcomes[0], mid) && Agrees(mid, commands[1..], outcomes[1..], v')
  }

  lemma {:induction false} AgreesMore(v: seq<Block>, commands: seq<Command>, outcomes: seq<Outcome>, mid: seq<Block>,
                                      command: Command, out: Outcome, v': seq<Block>)
    requires Agrees(v, commands, outcomes, mid) && Does(mid, command, out, v')
    ensures Agrees(v, commands + [command], outcomes + [out], v')
    decreases |commands|
  {
    if commands == [] {
      assert Agrees(v', [], [], v');
      assert ([] + [command])[1..] == [] && ([] + [out])[1..] == [];
    } else {
      var next :| Does(v, commands[0], outcomes[0], next) && Agrees(next, commands[1..], outcomes[1..], mid);
      AgreesMore(next, commands[1..], outcomes[1..], mid, command, out, v');
      assert (commands + [command])[1..] == commands[1..] + [command];
      assert (outcomes + [out])[1..] == outcomes[1..] + [out];
    }
  }

  class Blocks {
    const count: nat               // SYSTEM_BLOCKS
    const reliable: bool           // storage does not fail within its bounds
    var bufs: seq<BufState>
    var ram: seq<Block>
    var clock: nat
    var active: int
    var initialized: bool
    var storage: seq<Block>

    ghost var view: seq<Block>
    ghost var loose: nat
    ghost var used: seq<nat>       // the blocks accessed since the buffers were last emptied

    ghost predicate Ready()
      reads this
    {
      && count > 0 && |bufs| == count
      && Linked(bufs, ram, storage, view, loose)
      && Timed(bufs, used, clock)
    }

    /** Between operations: before first use storage is all there is, and nothing is loose. */
    ghost predicate Valid()
      reads this
    {
      && count > 0 && |bufs| == |ram| == count && loose == UNASSIGNED
      && -1 <= active < count
      && if initialized then Ready() else view == storage && |storage| <= UNASSIGNED && active == -1 && used == []
    }

    /** No modified buffer is of a block past the end, as BUFFER and then UPDATE can make one. */
    ghost predicate InRange()
      reads this
    {
      initialized ==> forall i :: 0 <= i < |bufs| && bufs[i].dirty ==> bufs[i].id < |storage|
    }

    constructor (n: nat, contents: seq<Block>, steady: bool)
      requires n > 0 && |contents| <= UNASSIGNED
      ensures Valid() && InRange() && view == storage == contents && count == n && reliable == steady && !initialized && used == []
    {
      count, reliable := n, steady;
      bufs, ram := seq(n, _ => BufState(0, false, 0)), seq(n, _ => []);
      clock, active, initialized := 0, -1, false;
      storage, view, loose, used := contents, contents, UNASSIGNED, [];
    }

    // ---- storage, which may fail ------------------------------------------------------------

    method BlkRead(b: nat) returns (err: int, data: Block)
      requires b < |storage|
      ensures err == 0 ==> data == storage[b]
      ensures reliable ==> err == 0
    {
      err, data := *, *;
      if reliable {
        err := 0;
      }
      if err == 0 {
        data := storage[b];
      }
    }

    method BlkWrite(b: nat, data: Block) returns (err: int)
      modifies `storage
      ensures |storage| == |old(storage)| && forall k :: 0 <= k < |storage| && k != b ==> storage[k] == old(storage)[k]
      ensures err == 0 ==> b < |storage| && storage[b] == data
      ensures reliable && b < |storage| ==> err == 0
    {
      if b >= |storage| {
        return ERR_BLK_BOUNDS;
      }
      var torn: Block := *;
      err := *;
      if reliable {
        err := 0;
      }
      storage := storage[b := if err == 0 then data else torn];
    }

    // ---- the buffers ---------------------------------------------------------------------------

    method InitBufferSystem()
      requires |storage| <= UNASSIGNED && count > 0 && |ram| == count
      modifies `bufs, `clock, `active, `initialized, `view, `loose, `used
      ensures Valid() && initialized && Ready() && active == -1 && view == storage
      ensures InRange() && used == [] && forall i :: 0 <= i < |bufs| ==> bufs[i].id == UNASSIGNED
    {
      bufs := seq(count, _ => BufState(UNASSIGNED, false, 0));
      clock, active, initialized := 0, -1, true;
      view, loose := storage, UNASSIGNED;
      used := [];
    }

    /** Write a modified buffer back. */
    method SyncBuffer(i: nat) returns (err: int)
      requires Ready() && i < count
      modifies `bufs, `storage
      ensures Ready()
      ensures if err == 0 then bufs == old(bufs)[i := old(bufs)[i].(dirty := false)] else bufs == old(bufs)
      ensures old(InRange()) ==> InRange()
      ensures reliable && old(InRange()) && initialized ==> err == 0
    {
      if bufs[i].id != UNASSIGNED && bufs[i].dirty {
        err := BlkWrite(bufs[i].id, ram[i]);
        if err != 0 {
          assert forall b :: HeldDirty(bufs, b) == HeldDirty(old(bufs), b);
          return;
        }
        bufs := bufs[i := bufs[i].(dirty := false)];
        forall b | 0 <= b < |view| && b != loose && !HeldDirty(bufs, b) ensures storage[b] == view[b] {
          if b != bufs[i].id {
            SameElsewhere(old(bufs), i, bufs[i], b);
          }
        }
      }
      err := 0;
    }

    /** Is the block in a buffer? */
    method Find(id: nat) returns (found: bool, idx: nat)
      requires |bufs| == count
      ensures if found then idx < count && bufs[idx].id == id && forall j :: 0 <= j < idx ==> bufs[j].id != id else !Held(bufs, id)
    {
      for i := 0 to count
        invariant forall j :: 0 <= j < i ==> bufs[j].id != id
      {
        if bufs[i].id == id {
          return true, i;
        }
      }
      found, idx := false, 0;
    }

    /** The first buffer with the lowest stamp; before the clock wraps, the one used least recently. */
    method LeastRecent() returns (idx: nat)
      requires |bufs| == count > 0 && Timed(bufs, used, clock) && Distinct(bufs) && !Held(bufs, UNASSIGNED)
      ensures FirstLowest(bufs, idx) && (|used| < CLOCK ==> Oldest(bufs, used, idx))
    {
      hide Timed, Oldest, LastUse, Distinct;
      idx := 0;
      var min := bufs[0].used;
      for i := 1 to count
        invariant idx < i && min == bufs[idx].used
        invariant forall j :: 0 <= j < i ==> min <= bufs[j].used && (j < idx ==> min < bufs[j].used)
      {
        if bufs[i].used < min {
          min, idx := bufs[i].used, i;
        }
      }
      if |used| < CLOCK {
        LowestIsOldest(bufs, used, clock, idx);
      }
    }

    /** The block's buffer, or an unassigned one, or the least recently used one, saved first. */
    method FindOrAllocate(blk: nat) returns (err: int, idx: nat)
      requires Valid()
      modifies `bufs, `clock, `active, `initialized, `storage, `view, `loose, `used
      ensures initialized && Valid() && view == old(view) && |storage| == |old(storage)|
      ensures err == 0 ==> idx < count && (bufs[idx].id == blk || (bufs[idx].id == UNASSIGNED && !Held(bufs, blk)))
      ensures err == 0 && blk != UNASSIGNED && (old(initialized) ==> !old(Held(bufs, blk))) ==> bufs[idx].id == UNASSIGNED
      ensures used == old(used) && (old(initialized) ==> active == old(active))
      ensures old(initialized) && |used| < CLOCK ==> GivesUpOldest(old(bufs), used, bufs)
      ensures old(initialized) ==> OtherIds(old(bufs), bufs, idx) && (err != 0 ==> bufs == old(bufs))
      ensures old(initialized) && old(Held(bufs, blk)) ==> err == 0 && bufs == old(bufs)
      ensures old(initialized) && !old(Held(bufs, blk)) && !old(Held(bufs, UNASSIGNED)) ==> FirstLowest(old(bufs), idx)
      ensures old(InRange()) ==> InRange() && (reliable ==> err == 0)
    {
      hide Linked, Timed, GivesUpOldest, HeldDirty;
      if !initialized {
        InitBufferSystem();
      }
      NoneGivenUp(bufs, used);
      var found;
      found, idx := Find(blk);
      if found {
        return 0, idx;
      }
      found, idx := Find(UNASSIGNED);
      if found {
        return 0, idx;
      }
      err, idx := Evict();
      assert err == 0 && blk != UNASSIGNED ==> !Held(bufs, blk);
    }

    /** One used least recently is saved and given up. */
    method Evict() returns (err: int, idx: nat)
      requires Valid() && initialized && !Held(bufs, UNASSIGNED)
      modifies `bufs, `storage
      ensures Valid() && |storage| == |old(storage)| && FirstLowest(old(bufs), idx)
      ensures |used| < CLOCK ==> GivesUpOldest(old(bufs), used, bufs)
      ensures if err == 0 then bufs == old(bufs)[idx := old(bufs)[idx].(id := UNASSIGNED, dirty := false)] else bufs == old(bufs)
      ensures old(InRange()) ==> InRange() && (reliable ==> err == 0)
    {
      hide Oldest, LastUse, Timed, GivesUpOldest;
      idx := LeastRecent();
      NoneGivenUp(bufs, used);
      err := SyncBuffer(idx);
      if err == 0 {
        Unassign(idx);
        if |used| < CLOCK {
          OldestGivenUp(old(bufs), used, idx, bufs[idx]);
          assert bufs == old(bufs)[idx := bufs[idx]];
        }
      }
    }

    method Unassign(idx: nat)
      requires Valid() && initialized && idx < count && !bufs[idx].dirty
      modifies `bufs
      ensures Valid() && bufs == old(bufs)[idx := old(bufs)[idx].(id := UNASSIGNED, dirty := false)]
      ensures old(InRange()) ==> InRange()
    {
      bufs := bufs[idx := bufs[idx].(id := UNASSIGNED, dirty := false)];
      forall b | 0 <= b < |view| ensures HeldDirty(bufs, b) == HeldDirty(old(bufs), b) {
        CleanReplaced(old(bufs), idx, bufs[idx], b);
      }
    }

    // ---- Forth's words -----------------------------------------------------------------------

    /** lfAssignBlock: the block's buffer, read if need be. On an error nothing seen has changed. */
    method AssignBlock(blk: nat) returns (err: int, idx: nat)
      requires Valid()
      modifies `bufs, `ram, `clock, `active, `initialized, `storage, `view, `loose, `used
      ensures Valid() && view == old(view) && |storage| == |old(storage)|
      ensures blk >= |view| ==> err == ERR_BLK_BOUNDS && bufs == old(bufs)
      ensures err == 0 ==> initialized && idx < count && active == idx && bufs[idx].id == blk && ram[idx] == view[blk]
      ensures old(initialized) && blk < |view| && old(Held(bufs, blk)) ==> err == 0 && SameIds(old(bufs), bufs)
      ensures used == if err == 0 then old(used) + [blk] else old(used)
      ensures old(initialized) && |old(used)| < CLOCK ==> GivesUpOldest(old(bufs), old(used), bufs)
      ensures old(initialized) && err == 0 ==> OtherIds(old(bufs), bufs, idx)
      ensures old(InRange()) ==> InRange() && (reliable ==> (err == 0 <==> blk < |view|))
    {
      assert |view| == |storage|;
      hide Linked, Timed, GivesUpOldest, HoldsRecent, LastUse, FirstLowest, Distinct, HeldDirty;
      idx := 0;
      NoneGivenUp(bufs, used);
      if blk >= |storage| {
        return ERR_BLK_BOUNDS, 0;
      }
      if initialized {
        var found;
        found, idx := Find(blk);
        if found {
          Hit(idx, blk);
          return 0, idx;
        }
      }
      err, idx := Bring(blk);
    }

    /** A block in no buffer is read into one. */
    method Bring(blk: nat) returns (err: int, idx: nat)
      requires Valid() && blk < |view| == |storage| && (initialized ==> !Held(bufs, blk))
      modifies `bufs, `ram, `clock, `active, `initialized, `storage, `view, `loose, `used
      ensures Valid() && view == old(view) && |storage| == |old(storage)|
      ensures err == 0 ==> initialized && idx < count && active == idx && bufs[idx].id == blk && ram[idx] == view[blk]
      ensures used == if err == 0 then old(used) + [blk] else old(used)
      ensures old(initialized) && |old(used)| < CLOCK ==> GivesUpOldest(old(bufs), old(used), bufs)
      ensures old(initialized) && err == 0 ==> OtherIds(old(bufs), bufs, idx)
      ensures old(InRange()) ==> InRange() && (reliable ==> err == 0)
    {
      assert |storage| <= UNASSIGNED;
      hide Linked, Timed, GivesUpOldest, HoldsRecent, LastUse, FirstLowest, Distinct, HeldDirty;
      ghost var was := bufs;
      err, idx := FindOrAllocate(blk);
      if err != 0 {
        return ERR_BLOCK_READ_ERROR, idx;
      }
      ghost var mid := bufs;
      err := LoadInto(idx, blk);
      assert bufs == mid[idx := bufs[idx]];
      if GivesUpOldest(was, old(used), mid) {
        FreeTaken(was, old(used), mid, idx, bufs[idx]);
      }
    }

    /** The block is in a buffer: that is the newest now. */
    method Hit(idx: nat, blk: nat)
      requires Valid() && initialized && idx < count && bufs[idx].id == blk < |view|
      modifies `bufs, `clock, `active, `used
      ensures Valid() && active == idx && bufs[idx].id == blk && ram[idx] == view[blk] && used == old(used) + [blk]
      ensures SameIds(old(bufs), bufs) && GivesUpOldest(old(bufs), old(used), bufs)
      ensures old(InRange()) ==> InRange()
    {
      NoneGivenUp(bufs, used);
      FreeTaken(bufs, used, bufs, idx, bufs[idx].(used := (clock + 1) % CLOCK));
      Touch(idx);
      active := idx;
    }

    /** Read a block into an unassigned buffer. */
    method LoadInto(idx: nat, blk: nat) returns (err: int)
      requires Valid() && initialized && blk < |view| && idx < count
      requires bufs[idx].id == UNASSIGNED && !Held(bufs, blk)
      modifies `bufs, `ram, `clock, `active, `used
      ensures Valid()
      ensures err == 0 ==> active == idx && bufs == old(bufs)[idx := BufState(blk, false, clock)] && ram[idx] == view[blk]
      ensures if err == 0 then used == old(used) + [blk] else used == old(used) && bufs == old(bufs)
      ensures old(InRange()) ==> InRange() && (reliable ==> err == 0)
    {
      assert !HeldDirty(bufs, blk);
      var data;
      err, data := BlkRead(blk);
      ram := ram[idx := data];
      if err != 0 {
        return;
      }
      Assign(idx, blk);
    }

    /** An access: the buffer gets the newest stamp. */
    method Touch(idx: nat)
      requires Ready() && idx < count
      modifies `bufs, `clock, `used
      ensures Ready() && bufs == old(bufs)[idx := old(bufs)[idx].(used := clock)]
      ensures old(InRange()) ==> InRange()
      ensures used == old(used) + [bufs[idx].id]
    {
      TimedMore(bufs, used, clock, idx, bufs[idx].id);
      clock := (clock + 1) % CLOCK;
      bufs := bufs[idx := bufs[idx].(used := clock)];
      used := used + [bufs[idx].id];
      forall b ensures HeldDirty(bufs, b) == HeldDirty(old(bufs), b) {
        Stamped(old(bufs), idx, clock, b);
      }
    }

    /** An unassigned buffer that holds what is seen of a block becomes its buffer. */
    method Assign(idx: nat, blk: nat)
      requires Ready() && idx < count && bufs[idx].id == UNASSIGNED && !Held(bufs, blk)
      requires blk < |view| ==> ram[idx] == view[blk]
      modifies `bufs, `clock, `active, `used
      ensures Ready() && active == idx && used == old(used) + [blk]
      ensures bufs == old(bufs)[idx := BufState(blk, false, clock)]
      ensures old(InRange()) ==> InRange()
    {
      TimedMore(bufs, used, clock, idx, blk);
      clock := (clock + 1) % CLOCK;
      bufs := bufs[idx := BufState(blk, false, clock)];
      used := used + [blk];
      forall b | 0 <= b < |view| ensures HeldDirty(bufs, b) == HeldDirty(old(bufs), b) {
        CleanReplaced(old(bufs), idx, bufs[idx], b);
      }
      active := idx;
    }

    /** assignBuffer: a buffer for a block to be overwritten. Until then what it holds is what is seen of the block. */
    method AssignBuffer(blk: nat) returns (err: int, idx: nat)
      requires Valid() && blk <= UNASSIGNED
      modifies `bufs, `ram, `clock, `active, `initialized, `storage, `view, `loose, `used
      ensures |storage| == |old(storage)|
      ensures err != 0 ==> err == ERR_BLOCK_WRITE_ERROR && Valid() && view == old(view)
      ensures err == 0 ==> Editing(blk) && active == idx
      ensures err == 0 ==> view == if blk < |view| then old(view)[blk := ram[idx]] else old(view)
      ensures old(initialized && Held(bufs, blk)) ==> err == 0 && SameIds(old(bufs), bufs)
      ensures used == if err == 0 then old(used) + [blk] else old(used)
      ensures old(initialized) && |old(used)| < CLOCK ==> GivesUpOldest(old(bufs), old(used), bufs)
      ensures old(initialized) && err == 0 ==> OtherIds(old(bufs), bufs, idx)
      ensures old(InRange()) ==> InRange() && (reliable ==> err == 0)
    {
      hide Linked, Timed, GivesUpOldest, HoldsRecent, LastUse, FirstLowest, Distinct, HeldDirty;
      ghost var was := bufs;
      err, idx := FindOrAllocate(blk);
      if err != 0 {
        return ERR_BLOCK_WRITE_ERROR, idx;
      }
      ghost var mid := bufs;
      if bufs[idx].id == blk {
        Again(idx, blk);
      } else {
        Claim(idx, blk);
      }
      if GivesUpOldest(was, old(used), mid) {
        FreeTaken(was, old(used), mid, idx, bufs[idx]);
      }
    }

    /** The block's own buffer is to be filled. */
    method Again(idx: nat, blk: nat)
      requires initialized && Valid() && idx < count && bufs[idx].id == blk
      modifies `bufs, `clock, `active, `loose, `used
      ensures Editing(blk) && active == idx && used == old(used) + [blk]
      ensures bufs == old(bufs)[idx := old(bufs)[idx].(used := clock)]
      ensures view == if blk < |view| then old(view)[blk := ram[idx]] else old(view)
      ensures old(InRange()) ==> InRange()
    {
      loose := blk;
      Touch(idx);
      active := idx;
    }

    /** An unassigned buffer becomes the block's, with what it happens to hold. */
    method Claim(idx: nat, blk: nat)
      requires initialized && Valid() && idx < count && bufs[idx].id == UNASSIGNED && !Held(bufs, blk)
      modifies `bufs, `clock, `active, `view, `loose, `used
      ensures Editing(blk) && active == idx && bufs == old(bufs)[idx := BufState(blk, false, clock)]
      ensures used == old(used) + [blk]
      ensures view == if blk < |old(view)| then old(view)[blk := ram[idx]] else old(view)
      ensures old(InRange()) ==> InRange()
    {
      loose := blk;
      assert !HeldDirty(bufs, blk);
      if blk < |view| {
        view := view[blk := ram[idx]];
      }
      Assign(idx, blk);
    }

    /** The active buffer's block may be changed in place. */
    ghost predicate Editing(blk: nat)
      reads this
    {
      && initialized && Ready() && 0 <= active < count && bufs[active].id == blk
      && (loose == UNASSIGNED || loose == blk)
    }

    /** The user writes in the active buffer, by its address. */
    method Poke(ghost blk: nat, data: Block)
      requires Editing(blk)
      modifies `ram, `view, `loose
      ensures Editing(blk)
      ensures view == if blk < |view| then old(view)[blk := data] else old(view)
    {
      ram := ram[active := data];
      if blk < |view| {
        view := view[blk := data];
      }
      loose := blk;
    }

    /** update: the active buffer is to be saved. */
    method Update(ghost blk: nat)
      requires Editing(blk)
      modifies `bufs, `loose
      ensures Valid() && SameIds(old(bufs), bufs)
      ensures old(InRange()) && blk < |storage| ==> InRange()
    {
      if 0 <= active < count {
        if bufs[active].id != UNASSIGNED {
          bufs := bufs[active := bufs[active].(dirty := true)];
          forall b | 0 <= b < |view| && b != blk ensures HeldDirty(bufs, b) == HeldDirty(old(bufs), b) {
            SameElsewhere(old(bufs), active, bufs[active], b);
          }
          assert bufs[active].id == blk && bufs[active].dirty;
          assert HeldDirty(bufs, blk);
        }
      }
      loose := UNASSIGNED;
    }

    /** The active buffer is changed and marked. */
    method Fill(blk: nat, data: Block)
      requires Editing(blk) && blk < |view|
      modifies `ram, `view, `loose, `bufs
      ensures Valid() && view == old(view)[blk := data] && SameIds(old(bufs), bufs)
      ensures old(InRange()) ==> InRange()
    {
      assert |storage| == |view|;
      hide Linked, Timed;
      Poke(blk, data);
      Update(blk);
    }

    // ---- what a program does ---------------------------------------------------------------------

    /** blk block, then read. */
    method ReadBlock(blk: nat) returns (err: int, data: Block)
      requires Valid()
      modifies this
      ensures Valid() && view == old(view) && |view| == |storage|
      ensures err == 0 ==> blk < |view| && data == view[blk]
      ensures used == if err == 0 then old(used) + [blk] else old(used)
      ensures Lru(old(bufs), old(used), bufs, used, err == 0 || (reliable && old(InRange())))
      ensures old(InRange()) ==> InRange() && (reliable ==> (err == 0 <==> blk < |view|))
    {
      hide Linked, Timed, GivesUpOldest, HoldsRecent, Lru;
      var idx;
      data := [];
      err, idx := Access(blk);
      if err == 0 {
        data := ram[idx];
      }
    }

    /** blk block, and what that does to which blocks are held. */
    method Access(blk: nat) returns (err: int, idx: nat)
      requires Valid()
      modifies `bufs, `ram, `clock, `active, `initialized, `storage, `view, `loose, `used
      ensures Valid() && view == old(view) && |storage| == |old(storage)| == |view|
      ensures err == 0 ==> initialized && idx < count && active == idx && bufs[idx].id == blk < |view| && ram[idx] == view[blk]
      ensures old(InRange()) ==> InRange() && (reliable ==> (err == 0 <==> blk < |view|))
      ensures used == if err == 0 then old(used) + [blk] else old(used)
      ensures Lru(old(bufs), old(used), bufs, used, err == 0 || (reliable && old(InRange())))
    {
      assert |view| == |storage| <= UNASSIGNED;
      hide Linked, Timed, GivesUpOldest, HoldsRecent;
      ghost var was := bufs;
      err, idx := AssignBlock(blk);
      if err == 0 {
        AccessLru(was, old(used), bufs, idx, blk);
      } else if blk >= |view| {
        LruSame(was, used, bufs);
      }
    }

    /** blk block, change it in place, update. */
    method ModifyBlock(blk: nat, change: Block -> Block) returns (err: int)
      requires Valid()
      modifies this
      ensures Valid()
      ensures if err == 0 then blk < |old(view)| && view == old(view)[blk := change(old(view)[blk])] else view == old(view)
      ensures used == if err == 0 then old(used) + [blk] else old(used)
      ensures Lru(old(bufs), old(used), bufs, used, err == 0 || (reliable && old(InRange())))
      ensures old(InRange()) ==> InRange() && (reliable ==> (err == 0 <==> blk < |view|))
    {
      hide Lru;
      var idx;
      err, idx := Access(blk);
      ghost var mid := bufs;
      if err == 0 {
        Fill(blk, change(ram[idx]));
        LruAlike(old(bufs), old(used), mid, used, true, bufs);
      }
    }

    /** lfBlockBuffer, fill it, update. */
    method OverwriteBlock(blk: nat, data: Block) returns (err: int)
      requires Valid()
      modifies this
      ensures Valid()
      ensures if err == 0 then blk < |old(view)| && view == old(view)[blk := data] else view == old(view)
      ensures used == if err == 0 then old(used) + [blk] else old(used)
      ensures Lru(old(bufs), old(used), bufs, used, err == 0 || (reliable && old(InRange())))
      ensures old(InRange()) ==> InRange() && (reliable ==> (err == 0 <==> blk < |view|))
    {
      assert |view| == |storage| <= UNASSIGNED;
      hide Lru, Linked, Timed, GivesUpOldest, HoldsRecent;
      if blk >= |storage| {
        LruSame(bufs, used, bufs);
        return ERR_BLK_BOUNDS;
      }
      var idx;
      err, idx := AccessBuffer(blk);
      ghost var mid := bufs;
      if err == 0 {
        Fill(blk, data);
        LruAlike(old(bufs), old(used), mid, used, true, bufs);
      }
    }

    /** BUFFER, and what that does to which blocks are held. */
    method AccessBuffer(blk: nat) returns (err: int, idx: nat)
      requires Valid() && blk < |view|
      modifies `bufs, `ram, `clock, `active, `initialized, `storage, `view, `loose, `used
      ensures |storage| == |old(storage)|
      ensures err != 0 ==> Valid() && view == old(view)
      ensures err == 0 ==> Editing(blk) && active == idx && view == old(view)[blk := ram[idx]]
      ensures old(InRange()) ==> InRange() && (reliable ==> err == 0)
      ensures used == if err == 0 then old(used) + [blk] else old(used)
      ensures Lru(old(bufs), old(used), bufs, used, err == 0 || (reliable && old(InRange())))
    {
      assert |view| <= UNASSIGNED;
      hide Linked, Timed, GivesUpOldest, HoldsRecent;
      ghost var was := bufs;
      err, idx := AssignBuffer(blk);
      if err == 0 {
        AccessLru(was, old(used), bufs, idx, blk);
      }
    }

    /** save-buffers: a success leaves storage as it is seen. */
    method SaveBuffers() returns (err: int)
      requires Valid()
      modifies `bufs, `storage
      ensures Valid() && |storage| == |old(storage)| && SameIds(old(bufs), bufs)
      ensures err == 0 ==> storage == view
      ensures old(InRange()) ==> InRange() && (reliable ==> err == 0)
    {
      if !initialized {
        return 0;
      }
      for i := 0 to count
        invariant Valid() && initialized && |storage| == |old(storage)| && SameIds(old(bufs), bufs)
        invariant forall j :: 0 <= j < i ==> !bufs[j].dirty
        invariant old(InRange()) ==> InRange()
      {
        err := SyncBuffer(i);
        if err != 0 {
          return;
        }
      }
      err := 0;
      assert forall b :: 0 <= b < |view| ==> storage[b] == view[b];
    }

    /** flush */
    method Flush() returns (err: int)
      requires Valid()
      modifies this
      ensures Valid() && view == old(view)
      ensures err == 0 ==> storage == view && forall i :: 0 <= i < |bufs| ==> bufs[i].id == UNASSIGNED
      ensures if err == 0 then used == [] else used == old(used) && SameIds(old(bufs), bufs)
      ensures old(InRange()) ==> InRange() && (reliable ==> err == 0)
    {
      err := SaveBuffers();
      if err != 0 {
        return;
      }
      EmptyBuffers();
    }

    /**
     * Any run of commands does what it would do to plain storage, but for those
     * that fail, which do nothing; with steady storage only those out of bounds fail.
     * held is the buffers before each command and at the end: before the clock wraps,
     * a command that gives up a block gives up the one whose last access is earliest,
     * and with steady storage the blocks held are always those accessed last.
     */
    method Run(commands: seq<Command>) returns (outcomes: seq<Outcome>, ghost held: seq<seq<BufState>>)
      requires Valid()
      modifies this
      ensures Valid() && Agrees(old(view), commands, outcomes, view)
      ensures commands != [] && commands[|commands| - 1].Flushing? && outcomes[|commands| - 1].Done? ==> storage == view
      ensures reliable && old(InRange()) ==>
                forall k :: 0 <= k < |commands| ==> k < |outcomes| && (outcomes[k].Done? <==> InBounds(commands[k], |old(view)|))
      ensures |outcomes| == |commands| && used == AccessedBy(old(used), commands, outcomes)
      ensures |held| == |commands| + 1 && held[0] == old(bufs) && held[|commands|] == bufs
      ensures forall k :: 0 <= k < |commands| ==> TurnLru(old(used), commands, outcomes, held, k)
      ensures reliable && old(InRange()) && old(HoldsRecent(bufs, used)) && NoWrap(old(used), commands, outcomes) ==>
                HoldsRecent(bufs, used)
    {
      hide Linked, Timed, Lru, HoldsRecent, Agrees, Accessed, AccessedBy;
      outcomes, held := [], [bufs];
      var n := 0;
      NothingYet(old(view), old(used));
      while n < |commands|
        invariant 0 <= n <= |commands| && Valid() && |outcomes| == n
        invariant Agrees(old(view), commands[..n], outcomes, view)
        invariant n > 0 && commands[n - 1].Flushing? && outcomes[n - 1].Done? ==> storage == view
        invariant |view| == |old(view)| && (old(InRange()) ==> InRange())
        invariant reliable && old(InRange()) ==> forall k :: 0 <= k < n ==> (outcomes[k].Done? <==> InBounds(commands[k], |view|))
        invariant used == AccessedBy(old(used), commands[..n], outcomes)
        invariant |held| == n + 1 && held[0] == old(bufs) && held[n] == bufs
        invariant forall k :: 0 <= k < n ==> TurnLru(old(used), commands[..n], outcomes, held, k)
        invariant reliable && old(InRange()) && old(HoldsRecent(bufs, used)) && NoWrap(old(used), commands[..n], outcomes) ==>
                    HoldsRecent(bufs, used)
      {
        ghost var before, used0, sure := view, used, reliable && InRange();
        var out := Perform(commands[n]);
        assert commands[..n + 1] == commands[..n] + [commands[n]];
        AgreesMore(old(view), commands[..n], outcomes, before, commands[n], out, view);
        AccessedMore(old(used), commands[..n], outcomes, commands[n], out);
        TurnsMore(old(used), commands[..n], outcomes, held, commands[n], out, bufs, used0, used, out.Done? || sure);
        outcomes, held, n := outcomes + [out], held + [bufs], n + 1;
      }
      assert commands[..n] == commands;
    }

    method Perform(command: Command) returns (out: Outcome)
      requires Valid()
      modifies this
      ensures Valid() && Does(old(view), command, out, view)
      ensures command.Flushing? && out.Done? ==> storage == view
      ensures old(InRange()) ==> InRange() && (reliable ==> (out.Done? <==> InBounds(command, |view|)))
      ensures |view| == |old(view)|
      ensures used == Accessed(old(used), command, out)
      ensures if command.Flushing? && out.Done? then used == []
              else Lru(old(bufs), old(used), bufs, used, out.Done? || (reliable && old(InRange())))
    {
      hide Lru, Linked, Timed;
      var err, data := 0, [];
      match command {
        case Reading(blk) => err, data := ReadBlock(blk);
        case Modifying(blk, change) => err := ModifyBlock(blk, change);
        case Overwriting(blk, contents) => err := OverwriteBlock(blk, contents);
        case Saving =>
          err := SaveBuffers();
          LruSame(old(bufs), used, bufs);
        case Flushing =>
          err := Flush();
          if err != 0 {
            LruSame(old(bufs), used, bufs);
          }
      }
      out := if err == 0 then Done(data) else Failed(err);
    }

    /** empty-buffers: what storage has is seen again. */
    method EmptyBuffers()
      requires Valid()
      modifies `bufs, `clock, `active, `initialized, `view, `loose, `used
      ensures Valid() && InRange() && view == storage && used == [] && forall i :: 0 <= i < |bufs| ==> bufs[i].id == UNASSIGNED
    {
      InitBufferSystem();
    }
  }

  lemma {:induction false} Stamped(bufs: seq<BufState>, i: nat, used: nat, b: nat)
    requires i < |bufs|
    ensures HeldDirty(bufs[i := bufs[i].(used := used)], b) == HeldDirty(bufs, b)
  {
    var next := bufs[i := bufs[i].(used := used)];
    if HeldDirty(bufs, b) {
      var j :| 0 <= j < |bufs| && bufs[j].id == b && bufs[j].dirty;
      assert next[j].id == b && next[j].dirty;
    }
    if HeldDirty(next, b) {
      var j :| 0 <= j < |next| && next[j].id == b && next[j].dirty;
      assert bufs[j].id == b && bufs[j].dirty;
    }
  }

  lemma {:induction false} CleanReplaced(bufs: seq<BufState>, i: nat, next: BufState, b: nat)
    requires i < |bufs| && !bufs[i].dirty && !next.dirty
    ensures HeldDirty(bufs[i := next], b) == HeldDirty(bufs, b)
  {
    if HeldDirty(bufs, b) {
      var j :| 0 <= j < |bufs| && bufs[j].id == b && bufs[j].dirty;
      assert bufs[i := next][j] == bufs[j];
    }
  }

  lemma {:induction false} SameElsewhere(bufs: seq<BufState>, i: nat, next: BufState, b: nat)
    requires i < |bufs| && b != bufs[i].id && b != next.id
    ensures HeldDirty(bufs[i := next], b) == HeldDirty(bufs, b)
  {
    if HeldDirty(bufs, b) {
      var j :| 0 <= j < |bufs| && bufs[j].id == b && bufs[j].dirty;
      assert bufs[i := next][j] == bufs[j];
    }
  }
}
