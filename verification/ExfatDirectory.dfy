/**
 * An exFAT directory as src/exfat.c walks it: 32-byte entries, sixteen to a
 * sector, entry sets told apart by their types and their checksum (sections
 * 6.3 and 7.4 of the exFAT file system specification).
 */
module ExfatDirectory {
  import opened Limbs

  const T_END: nat := 0x00
  const T_FILE: nat := 0x85
  const T_STREAM: nat := 0xC0
  const T_NAME: nat := 0xC1
  const UNUSED: nat := 0x05
  const ENTRIES: nat := 16                     // in a sector

  type Entry = e: seq<u8> | |e| == 32 witness seq(32, _ => 0)
  type Dir = seq<Entry>

  // ---- little-endian fields ---------------------------------------------------------------

  function Bytes(x: nat, n: nat): (b: seq<u8>)
    ensures |b| == n
  {
    if n == 0 then [] else [x % 0x100] + Bytes(x / 0x100, n - 1)
  }

  lemma {:induction false} LeBytes(x: nat, n: nat)
    requires x < Pow256(n)
    ensures LeVal(Bytes(x, n)) == x
  {
    if n == 0 {
    } else {
      LeBytes(x / 0x100, n - 1);
      assert Bytes(x, n)[1..] == Bytes(x / 0x100, n - 1);
    }
  }

  /** n bytes of an entry from offset at replaced. */
  function Put(e: Entry, at: nat, b: seq<u8>): Entry
    requires at + |b| <= 32
  {
    e[..at] + b + e[at + |b|..]
  }

  // ---- checksums -----------------------------------------------------------------------------

  /** exfat_sum16: rotate right and add. */
  function Sum16(sum: nat, b: seq<u8>): nat
    decreases |b|
  {
    if b == [] then sum
    else Sum16(((if sum % 2 == 1 then 0x8000 else 0) + sum / 2 + b[0]) % 0x1_0000, b[1..])
  }

  /** SetChecksum of an entry set: all of it but the checksum's own two bytes. */
  function SetSum(dir: Dir, i: nat, count: nat): nat
    requires i + count < |dir|
  {
    if count == 0 then Sum16(Sum16(0, dir[i][..2]), dir[i][4..])
    else Sum16(SetSum(dir, i, count - 1), dir[i + count])
  }

  /** One byte's step: half of the sum in 16-bit rotation, so that doubling gives it back, and the byte. */
  lemma {:induction false} SumOne(sum: nat, c: u8)
    requires sum < 0x1_0000
    ensures exists half: nat :: 2 * half == sum + sum % 2 * 0xFFFF && Sum16(sum, [c]) == (half + c) % 0x1_0000
  {
    var half := sum / 2 + (if sum % 2 == 1 then 0x8000 else 0);
    assert 2 * half == sum + sum % 2 * 0xFFFF;
    assert Sum16(sum, [c]) == Sum16((half + c) % 0x1_0000, [c][1..]);
  }

  lemma {:induction false} SumJoined(sum: nat, a: seq<u8>, b: seq<u8>)
    ensures Sum16(sum, a + b) == Sum16(Sum16(sum, a), b)
    decreases |a|
  {
    if a == [] {
      assert a + b == b;
    } else {
      assert (a + b)[1..] == a[1..] + b;
      SumJoined(((if sum % 2 == 1 then 0x8000 else 0) + sum / 2 + a[0]) % 0x1_0000, a[1..], b);
    }
  }

  /** The sums of the two bytes a file's set starts with, and of a letter of a name. */
  lemma {:induction false} KnownSums()
    ensures Sum16(0, [0x85, 2]) == 0x8044 && Sum16(0, [0x41, 0]) == 0x8020
  {
    assert [0x85, 2][1..] == [2] && [0x41, 0][1..] == [0] && [2][1..] == [] && [0][1..] == [];
    assert Sum16(0x85, [2]) == Sum16(0x8044, []) && Sum16(0x41, [0]) == Sum16(0x8020, []);
  }

  /** The bytes of entries i to i + n - 1. */
  function Flat(dir: Dir, i: nat, n: nat): (b: seq<u8>)
    requires i + n <= |dir|
    ensures |b| == 32 * n
  {
    if n == 0 then [] else Flat(dir, i, n - 1) + dir[i + n - 1]
  }

  /** The checksum of a set is that of its bytes in their order, the stored checksum's own two left out. */
  lemma {:induction false} SetSumIs(dir: Dir, i: nat, count: nat)
    requires i + count < |dir|
    ensures var b := Flat(dir, i, count + 1); SetSum(dir, i, count) == Sum16(0, b[..2] + b[4..])
  {
    var b := Flat(dir, i, count + 1);
    if count == 0 {
      assert Flat(dir, i, 0) == [];
      assert b == dir[i];
      SumJoined(0, b[..2], b[4..]);
    } else {
      var c := Flat(dir, i, count);
      SetSumIs(dir, i, count - 1);
      SumJoined(0, c[..2] + c[4..], dir[i + count]);
      assert b[..2] + b[4..] == c[..2] + c[4..] + dir[i + count];
    }
  }

  function Stored(e: Entry): nat { LeVal(e[2..4]) }

  // ---- the walk ---------------------------------------------------------------------------------

  predicate InUse(e: Entry) { e[0] >= 0x80 }

  predicate Secondary(e: Entry) { e[0] >= 0xC0 }

  predicate Starts(e: Entry) { e[0] == T_FILE && 2 <= e[1] <= 18 }

  /** Entry i + k can be secondary k of a set at i. */
  predicate Part(dir: Dir, i: nat, k: nat) {
    i + k < |dir| && Secondary(dir[i + k]) && (k == 1 ==> dir[i + k][0] == T_STREAM)
  }

  /** How many of the first n secondaries are there, up to the first that is not. */
  function Parts(dir: Dir, i: nat, n: nat): (k: nat)
    ensures k <= n
  {
    if n == 0 then 0
    else
      var k := Parts(dir, i, n - 1);
      if k == n - 1 && Part(dir, i, n) then n else k
  }

  predicate Whole(dir: Dir, i: nat)
    requires i < |dir|
  {
    Starts(dir[i]) && Parts(dir, i, dir[i][1]) == dir[i][1]
  }

  /** Where the walk goes on: past a whole set, at the entry that broke a set, else one further. */
  function Next(dir: Dir, i: nat): (j: nat)
    requires i < |dir|
    ensures i < j
  {
    if Starts(dir[i]) then i + 1 + Parts(dir, i, dir[i][1]) else i + 1
  }

  lemma {:induction false} PartsInside(dir: Dir, i: nat, n: nat)
    requires i < |dir|
    ensures i + Parts(dir, i, n) < |dir|
    ensures forall k :: 1 <= k <= Parts(dir, i, n) ==> Part(dir, i, k)
  {
    if n == 0 {
    } else {
      PartsInside(dir, i, n - 1);
    }
  }

  /** A set exfat_find looks at the name of: whole, and its checksum matches. */
  predicate Valid(dir: Dir, i: nat) {
    i < |dir| && Whole(dir, i) && i + dir[i][1] < |dir| && SetSum(dir, i, dir[i][1]) == Stored(dir[i])
  }

  /** Such a set by its bytes: a file entry, two to eighteen secondaries of which the first is the stream's, the right checksum. */
  lemma {:induction false} ValidIs(dir: Dir, i: nat)
    ensures Valid(dir, i) <==>
              && i < |dir| && dir[i][0] == 0x85 && 2 <= dir[i][1] <= 18 && i + dir[i][1] < |dir|
              && dir[i + 1][0] == 0xC0 && (forall k :: i < k <= i + dir[i][1] ==> dir[k][0] >= 0xC0)
              && SetSum(dir, i, dir[i][1]) == dir[i][2] + 0x100 * (dir[i][3] as nat)
  {
    if i < |dir| {
      StoredIs(dir[i]);
      var n := dir[i][1];
      PartsInside(dir, i, n);
      if Whole(dir, i) {
        assert Part(dir, i, 1);
        forall k | i < k <= i + n ensures dir[k][0] >= 0xC0 {
          assert Part(dir, i, k - i);
        }
      } else if Starts(dir[i]) && i + n < |dir| && dir[i + 1][0] == 0xC0 && forall k :: i < k <= i + n ==> dir[k][0] >= 0xC0 {
        AllParts(dir, i, n);
      }
    }
  }

  lemma {:induction false} AllParts(dir: Dir, i: nat, n: nat)
    requires i + n < |dir| && (n > 0 ==> dir[i + 1][0] == T_STREAM) && forall k :: i < k <= i + n ==> dir[k][0] >= 0xC0
    ensures Parts(dir, i, n) == n
  {
    if n == 0 {
    } else {
      AllParts(dir, i, n - 1);
      assert dir[i + n][0] >= 0xC0;
    }
  }

  lemma {:induction false} StoredIs(e: Entry)
    ensures Stored(e) == e[2] + 0x100 * (e[3] as nat)
  {
    var b := e[2..4];
    assert b[1..] == [b[1]] && [b[1]][1..] == [];
    assert LeVal(b[1..]) == b[1] + 0x100 * LeVal([]);
  }

  /** The sets that a walk from i finds. */
  function VisibleFrom(dir: Dir, i: nat): (v: set<nat>)
    ensures forall k :: k in v ==> i <= k < |dir| && Valid(dir, k)
    decreases |dir| - i
  {
    if i >= |dir| || dir[i][0] == T_END then {}
    else (if Valid(dir, i) then {i} else {}) + VisibleFrom(dir, Next(dir, i))
  }

  function Visible(dir: Dir): set<nat> {
    VisibleFrom(dir, 0)
  }

  /** After the first end-of-directory entry there are only more of them. */
  predicate Ended(dir: Dir) {
    forall i, j :: 0 <= i < j < |dir| && dir[i][0] == T_END ==> dir[j][0] == T_END
  }

  // ---- what changes to a directory do to the walk ---------------------------------------------

  /** Before an entry that is in no set's middle, in both, the walks are alike. */
  lemma {:induction false} PartsAlike(dir: Dir, dir': Dir, i: nat, n: nat, p: nat)
    requires |dir| == |dir'| && i < p < |dir| && dir[..p] == dir'[..p]
    requires !Secondary(dir[p]) && !Secondary(dir'[p])
    ensures Parts(dir, i, n) == Parts(dir', i, n) && i + Parts(dir, i, n) < p
  {
    if n == 0 {
    } else {
      PartsAlike(dir, dir', i, n - 1, p);
      if i + n < p {
        assert dir[i + n] == dir[..p][i + n] == dir'[..p][i + n] == dir'[i + n];
      }
    }
  }

  lemma {:induction false} SumAlike(dir: Dir, dir': Dir, i: nat, count: nat)
    requires i + count < |dir| == |dir'| && forall k :: i <= k <= i + count ==> dir[k] == dir'[k]
    ensures SetSum(dir, i, count) == SetSum(dir', i, count)
  {
    if count == 0 {
    } else {
      SumAlike(dir, dir', i, count - 1);
    }
  }

  lemma {:induction false} StepAlike(dir: Dir, dir': Dir, i: nat, p: nat)
    requires |dir| == |dir'| && i < p < |dir| && dir[..p] == dir'[..p]
    requires !Secondary(dir[p]) && !Secondary(dir'[p])
    ensures dir[i] == dir'[i] && Next(dir, i) == Next(dir', i) <= p && (Valid(dir, i) <==> Valid(dir', i))
  {
    assert dir[i] == dir[..p][i] == dir'[..p][i] == dir'[i];
    PartsAlike(dir, dir', i, dir[i][1], p);
    if Whole(dir, i) {
      forall k | i <= k <= i + dir[i][1] ensures dir[k] == dir'[k] {
        assert dir[k] == dir[..p][k] == dir'[..p][k] == dir'[k];
      }
      SumAlike(dir, dir', i, dir[i][1]);
    }
  }

  /** So both walks find the same sets before it, and come to it. */
  lemma {:induction false} WalksMeet(dir: Dir, dir': Dir, i: nat, p: nat) returns (before: set<nat>)
    requires |dir| == |dir'| && i <= p < |dir| && dir[..p] == dir'[..p]
    requires !Secondary(dir[p]) && !Secondary(dir'[p])
    requires forall k :: i <= k < p ==> dir[k][0] != T_END
    ensures VisibleFrom(dir, i) == before + VisibleFrom(dir, p)
    ensures VisibleFrom(dir', i) == before + VisibleFrom(dir', p)
    ensures forall k :: k in before ==> i <= k < p
    decreases p - i
  {
    if i == p {
      before := {};
    } else {
      StepAlike(dir, dir', i, p);
      var rest := WalksMeet(dir, dir', Next(dir, i), p);
      before := (if Valid(dir, i) then {i} else {}) + rest;
    }
  }

  lemma {:induction false} SameParts(dir: Dir, dir': Dir, i: nat, n: nat)
    requires |dir| == |dir'| && forall k :: i <= k < |dir| ==> dir[k] == dir'[k]
    ensures Parts(dir, i, n) == Parts(dir', i, n)
  {
    if n == 0 {
    } else {
      SameParts(dir, dir', i, n - 1);
    }
  }

  lemma {:induction false} NoEndBefore(dir: Dir, p: nat)
    requires Ended(dir) && p < |dir| && dir[p][0] != T_END
    ensures forall k :: 0 <= k < p ==> dir[k][0] != T_END
  {}

  /** Every set before the end that is whole, and checks, is found: none hides in another's middle. */
  lemma {:induction false} VisibleIff(dir: Dir, p: nat)
    requires Ended(dir)
    ensures p in Visible(dir) <==> Valid(dir, p)
  {
    if Valid(dir, p) {
      NoEndBefore(dir, p);
      var before := WalksMeet(dir, dir, 0, p);
    }
  }

  // ---- the writers' changes -----------------------------------------------------------------------

  /** Visible sets do not overlap. */
  lemma {:induction false} Apart(dir: Dir, i: nat, j: nat)
    requires i < j && Valid(dir, i) && Valid(dir, j)
    ensures i + dir[i][1] < j
  {
    PartsInside(dir, i, dir[i][1]);
    assert j <= i + dir[i][1] ==> Part(dir, i, j - i);
  }

  /** The entries of a set are the same in both. */
  predicate SameSet(dir: Dir, dir': Dir, i: nat) {
    i < |dir| && i + dir[i][1] < |dir| == |dir'| && forall k :: i <= k <= i + dir[i][1] ==> dir[k] == dir'[k]
  }

  /** Only entries p to end change, and no set goes into p from before. */
  predicate OnlyFrom(dir: Dir, dir': Dir, p: nat, end: nat) {
    && |dir| == |dir'| && p < end <= |dir| && !Secondary(dir[p]) && !Secondary(dir'[p])
    && forall k :: 0 <= k < |dir| && !(p <= k < end) ==> dir[k] == dir'[k]
  }

  lemma {:induction false} OthersSame(dir: Dir, dir': Dir, p: nat, end: nat, i: nat)
    requires OnlyFrom(dir, dir', p, end) && !(p <= i < end)
    ensures Valid(dir, i) <==> Valid(dir', i)
    ensures Valid(dir, i) ==> SameSet(dir, dir', i)
  {
    if i < p {
      assert dir[..p] == dir'[..p];
      StepAlike(dir, dir', i, p);
      PartsAlike(dir, dir', i, dir[i][1], p);
    } else if i < |dir| {
      SameParts(dir, dir', i, dir[i][1]);
      if i + dir[i][1] < |dir| {
        SumAlike(dir, dir', i, dir[i][1]);
      }
    }
  }

  /** Every other set is seen as before. */
  ghost predicate OthersKept(dir: Dir, dir': Dir, p: nat) {
    forall i: nat :: i != p ==> (i in Visible(dir) <==> i in Visible(dir')) && (i in Visible(dir) ==> SameSet(dir, dir', i))
  }

  lemma {:induction false} KeepOthers(dir: Dir, dir': Dir, p: nat, end: nat)
    requires OnlyFrom(dir, dir', p, end) && Ended(dir) && Ended(dir')
    requires forall k :: p < k < end ==> !Starts(dir[k]) && !Starts(dir'[k])
    ensures OthersKept(dir, dir', p)
  {
    hide Valid, Visible, SameSet;
    forall i: nat | i != p
      ensures (i in Visible(dir) <==> i in Visible(dir')) && (i in Visible(dir) ==> SameSet(dir, dir', i))
    {
      VisibleIff(dir, i);
      VisibleIff(dir', i);
      if p < i < end {
        NotStarting(dir, i);
        NotStarting(dir', i);
      } else {
        OthersSame(dir, dir', p, end, i);
      }
    }
  }

  lemma {:induction false} NotStarting(dir: Dir, i: nat)
    requires i < |dir| && !Starts(dir[i])
    ensures !Valid(dir, i)
  {}

  /** A set written over three unused entries, before the end or at it, is the only change seen. */
  lemma {:induction false} SetAdded(dir: Dir, dir': Dir, p: nat)
    requires OnlyFrom(dir, dir', p, p + 3) && Ended(dir)
    requires forall k :: p <= k < p + 3 ==> !InUse(dir[k])
    requires forall k :: 0 <= k < p ==> dir[k][0] != T_END
    requires Valid(dir', p) && dir'[p][1] == 2
    ensures OthersKept(dir, dir', p) && p in Visible(dir') && p !in Visible(dir) && Ended(dir')
  {
    PartsInside(dir', p, 2);
    assert Part(dir', p, 1) && Part(dir', p, 2);
    KeepOthers(dir, dir', p, p + 3);
    VisibleIff(dir, p);
    VisibleIff(dir', p);
  }

  /** End-of-directory entries from q to r made unused ones, with more after: nothing is seen to change. */
  lemma {:induction false} EndMoved(dir: Dir, dir': Dir, q: nat, r: nat)
    requires OnlyFrom(dir, dir', q, r) && r < |dir| && Ended(dir) && dir[q][0] == T_END
    requires forall k :: 0 <= k < q ==> dir[k][0] != T_END
    requires forall k :: q <= k < r ==> dir'[k][0] == UNUSED
    ensures OthersKept(dir, dir', q) && q !in Visible(dir) && q !in Visible(dir') && Ended(dir')
    ensures forall k :: 0 <= k < r ==> dir'[k][0] != T_END
  {
    forall i, j | 0 <= i < j < |dir| && dir'[i][0] == T_END ensures dir'[j][0] == T_END {
      assert i >= r;
    }
    forall k | q <= k < r ensures dir[k][0] == T_END {
      if k > q { assert dir[k][0] == T_END; }
    }
    KeepOthers(dir, dir', q, r);
    VisibleIff(dir, q);
    VisibleIff(dir', q);
  }

  /** A set whose entries are no longer in use is the only one gone. */
  lemma {:induction false} SetRemoved(dir: Dir, dir': Dir, p: nat, end: nat)
    requires OnlyFrom(dir, dir', p, end) && Ended(dir) && Valid(dir, p) && end == p + 1 + dir[p][1]
    requires forall k :: p <= k < end ==> dir'[k][0] == dir[k][0] % 0x80
    ensures OthersKept(dir, dir', p) && p !in Visible(dir') && Ended(dir')
  {
    PartsInside(dir, p, dir[p][1]);
    forall k | p < k < end ensures Secondary(dir[k]) && 0 < dir'[k][0] < 0x80 {
      assert Part(dir, p, k - p);
    }
    NoEndBefore(dir, p);
    forall i, j | 0 <= i < j < |dir| && dir'[i][0] == T_END ensures dir'[j][0] == T_END {
      assert i >= end && dir[i][0] == T_END && dir[j][0] == T_END;
    }
    KeepOthers(dir, dir', p, end);
    VisibleIff(dir', p);
  }

  /** A set changed in its first two entries, not in how the walk takes it, is seen where it was. */
  lemma {:induction false} SetChanged(dir: Dir, dir': Dir, p: nat)
    requires OnlyFrom(dir, dir', p, p + 2) && Ended(dir) && Valid(dir, p) && Valid(dir', p)
    requires dir'[p][0] == dir[p][0] && dir'[p + 1][0] == dir[p + 1][0]
    ensures OthersKept(dir, dir', p) && p in Visible(dir) && p in Visible(dir') && Ended(dir')
  {
    PartsInside(dir, p, dir[p][1]);
    assert Part(dir, p, 1);
    forall i, j | 0 <= i < j < |dir| && dir'[i][0] == T_END ensures dir'[j][0] == T_END {
      assert dir[i][0] == T_END && dir[j][0] == T_END;
    }
    KeepOthers(dir, dir', p, p + 2);
    VisibleIff(dir, p);
    VisibleIff(dir', p);
  }
}
