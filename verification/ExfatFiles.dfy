/**
 * What an entry set says of a file, its name, and the clusters it owns
 * (src/exfat.c; sections 7.4, 7.6 and 7.7 of the exFAT file system specification).
 */
module ExfatFiles {
  import opened Arithmetic
  import opened ExfatDirectory
  import opened Limbs

  // ---- fields of a set --------------------------------------------------------------------

  function First(s: Entry): nat { LeVal(s[20..24]) }
  function Length(s: Entry): nat { LeVal(s[24..32]) }
  function ValidLength(s: Entry): nat { LeVal(s[8..16]) }
  predicate NoFatChain(s: Entry) { s[1] / 2 % 2 == 1 }

  // ---- names ----------------------------------------------------------------------------------

  function Upper(c: nat): nat {
    if 0x61 <= c <= 0x7A then c - 0x20 else c
  }

  function HashOf(name: seq<u8>): nat {
    if name == [] then 0
    else Sum16(HashOf(name[..|name| - 1]), [Upper(name[|name| - 1]), 0])
  }

  /** The letters a to z, and no other characters, are taken as A to Z. */
  lemma {:induction false} UpperLetters(c: nat)
    ensures var small := 'a' as nat <= c <= 'z' as nat;
            && (small ==> 'A' as nat <= Upper(c) <= 'Z' as nat && Upper(c) - 'A' as nat == c - 'a' as nat)
            && (!small ==> Upper(c) == c)
  {}

  /** A name's characters in UTF-16, upper case, as the specification hashes them. */
  function UpperBytes(name: seq<u8>): (b: seq<u8>) {
    if name == [] then [] else UpperBytes(name[..|name| - 1]) + [Upper(name[|name| - 1]), 0]
  }

  /** The hash of a name is the sum of its upper-case bytes. */
  lemma {:induction false} HashIs(name: seq<u8>)
    ensures HashOf(name) == Sum16(0, UpperBytes(name))
  {
    if name == [] {
    } else {
      var n := |name| - 1;
      HashIs(name[..n]);
      SumJoined(0, UpperBytes(name[..n]), [Upper(name[n]), 0]);
    }
  }

  /** Each character of a name entry is a little-endian pair of bytes; the flag of a file without a chain is bit 1. */
  lemma {:induction false} FieldsOfEntry(e: Entry, j: nat)
    ensures j < 15 ==> EntryChars(e)[j] == LeVal(e[2 + 2 * j..4 + 2 * j])
    ensures NoFatChain(e) <==> e[1] % 4 >= 2
  {
    if j < 15 {
      var b := e[2 + 2 * j..4 + 2 * j];
      assert b[1..] == [b[1]] && [b[1]][1..] == [];
      assert LeVal(b[1..]) == b[1] + 0x100 * LeVal([]);
    }
  }

  /** The fifteen UTF-16 characters of a name entry. */
  function EntryChars(e: Entry): (c: seq<nat>)
    ensures |c| == 15
  {
    seq(15, j requires 0 <= j < 15 => e[2 + 2 * j] as nat + 0x100 * (e[3 + 2 * j] as nat))
  }

  function Min(a: nat, b: nat): nat { if a < b then a else b }

  /** The characters in secondaries 2 to k, no more than the name is long. */
  function CharsTo(dir: Dir, i: nat, k: nat, len: nat): (c: seq<nat>)
    requires i + k < |dir|
    ensures |c| <= len
  {
    if k < 2 then []
    else
      var before := CharsTo(dir, i, k - 1, len);
      if dir[i + k][0] == T_NAME then before + EntryChars(dir[i + k])[..Min(15, len - |before|)] else before
  }

  predicate SameUpper(a: seq<nat>, b: seq<nat>) {
    |a| == |b| && forall t :: 0 <= t < |a| ==> Upper(a[t]) == Upper(b[t])
  }

  /** The set at i is of this name, whatever the case. */
  predicate Matches(dir: Dir, i: nat, name: seq<u8>)
    requires Valid(dir, i)
  {
    var s := dir[i + 1];
    && s[3] == |name| && LeVal(s[4..6]) == HashOf(name)
    && SameUpper(CharsTo(dir, i, dir[i][1], s[3]), name)
  }

  lemma {:induction false} HashSame(a: seq<u8>, b: seq<u8>)
    requires SameUpper(a, b)
    ensures HashOf(a) == HashOf(b)
  {
    if a == [] {
    } else {
      HashSame(a[..|a| - 1], b[..|b| - 1]);
    }
  }

  /** Names that differ only in case are the same name. */
  lemma {:induction false} MatchesAnyCase(dir: Dir, i: nat, a: seq<u8>, b: seq<u8>)
    requires Valid(dir, i) && SameUpper(a, b)
    ensures Matches(dir, i, a) <==> Matches(dir, i, b)
  {
    HashSame(a, b);
  }

  /** How many characters of a are name's at the same place. */
  function CountSame(a: seq<nat>, name: seq<nat>): nat {
    if a == [] then 0
    else
      var t := |a| - 1;
      CountSame(a[..t], name) + if t < |name| && Upper(a[t]) == Upper(name[t]) then 1 else 0
  }

  lemma {:induction false} CountAll(a: seq<nat>, name: seq<nat>)
    requires |a| <= |name|
    ensures CountSame(a, name) <= |a|
    ensures CountSame(a, name) == |a| <==> forall t :: 0 <= t < |a| ==> Upper(a[t]) == Upper(name[t])
  {
    if a == [] {
    } else {
      var t := |a| - 1;
      CountAll(a[..t], name);
      assert forall u :: 0 <= u < t ==> a[..t][u] == a[u];
    }
  }

  lemma {:induction false} CharsSame(dir: Dir, dir': Dir, i: nat, k: nat, len: nat)
    requires i + k < |dir| == |dir'| && forall j :: i <= j <= i + k ==> dir[j] == dir'[j]
    ensures CharsTo(dir, i, k, len) == CharsTo(dir', i, k, len)
  {
    if k < 2 {
    } else {
      CharsSame(dir, dir', i, k - 1, len);
    }
  }

  /** A set that stays keeps its name. */
  lemma {:induction false} MatchesSame(dir: Dir, dir': Dir, i: nat, name: seq<u8>)
    requires Valid(dir, i) && Valid(dir', i) && SameSet(dir, dir', i)
    ensures Matches(dir, i, name) <==> Matches(dir', i, name)
  {
    CharsSame(dir, dir', i, dir[i][1], dir[i + 1][3]);
  }

  // ---- clusters -------------------------------------------------------------------------------

  /** A volume's shape: clusters 2 to count + 1, and what else than the root's files owns some. */
  datatype Volume = Volume(
    count: nat,
    bytes: nat,                           // in a cluster
    chain: (nat, nat) -> set<nat>,        // the clusters of a file in the FAT
    kept: set<nat>)                       // system structures, and files in other directories
  {
    predicate Ok() { bytes >= 512 && 0 < count < 0xFFFF_FFF0 }
  }

  function ClustersIn(vol: Volume, length: nat): nat
    requires vol.Ok()
  {
    (length + vol.bytes - 1) / vol.bytes
  }

  function Extent(first: nat, n: nat): (cs: set<nat>)
    ensures forall c :: c in cs <==> first <= c < first + n
  {
    if n == 0 then {} else Extent(first, n - 1) + {first + n - 1}
  }

  /** The clusters have room for `length` bytes, and with one fewer would not. */
  predicate Holds(vol: Volume, cs: set<nat>, length: nat) {
    (|cs| - 1) * vol.bytes < length <= |cs| * vol.bytes
  }

  predicate RoomFor(vol: Volume, length: nat, n: int) {
    length <= n * vol.bytes
  }

  /** So many clusters have room for `length` bytes if and only if they are as many as it needs. */
  lemma {:induction false} RoomIff(vol: Volume, length: nat, n: nat)
    requires vol.Ok()
    ensures ClustersIn(vol, length) <= n <==> RoomFor(vol, length, n)
  {
    var q := ClustersIn(vol, length);
    var x := length + vol.bytes - 1;
    assert x == q * vol.bytes + x % vol.bytes;
    if q <= n {
      TimesLe(q, n, vol.bytes);
    } else {
      TimesLe(n + 1, q, vol.bytes);
      assert (n + 1) * vol.bytes == n * vol.bytes + vol.bytes;
    }
  }

  lemma {:induction false} ExtentSize(first: nat, n: nat)
    ensures |Extent(first, n)| == n
  {
    if n == 0 {
    } else {
      ExtentSize(first, n - 1);
    }
  }

  /** As many clusters in a row as a file needs hold it. */
  lemma {:induction false} ExtentHolds(vol: Volume, first: nat, length: nat)
    requires vol.Ok()
    ensures Holds(vol, Extent(first, ClustersIn(vol, length)), length)
  {
    var n := ClustersIn(vol, length);
    ExtentSize(first, n);
    RoomIff(vol, length, n);
    if n > 0 {
      RoomIff(vol, length, n - 1);
    }
  }

  /** Some number of clusters holds `bytes` bytes but not `length`. */
  ghost predicate FewerHold(vol: Volume, bytes: nat, length: nat) {
    exists n: nat :: RoomFor(vol, bytes, n) && !RoomFor(vol, length, n)
  }

  lemma {:induction false} FewerIff(vol: Volume, bytes: nat, length: nat)
    requires vol.Ok()
    ensures FewerHold(vol, bytes, length) <==> ClustersIn(vol, bytes) < ClustersIn(vol, length)
  {
    forall n: nat
      ensures RoomFor(vol, bytes, n) <==> ClustersIn(vol, bytes) <= n
      ensures RoomFor(vol, length, n) <==> ClustersIn(vol, length) <= n
    {
      RoomIff(vol, bytes, n);
      RoomIff(vol, length, n);
    }
    assert ClustersIn(vol, bytes) < ClustersIn(vol, length) ==> !RoomFor(vol, length, ClustersIn(vol, bytes));
  }

  /** The clusters of the set at i. */
  function Owned(vol: Volume, dir: Dir, i: nat): set<nat>
    requires vol.Ok()
  {
    if i + 1 >= |dir| then {} else
    var s := dir[i + 1];
    if NoFatChain(s) then Extent(First(s), ClustersIn(vol, Length(s))) else vol.chain(First(s), Length(s))
  }

  /** By the bytes of its stream entry: the chain from the first cluster, or as many in a row as hold its length. */
  lemma {:induction false} OwnedIs(vol: Volume, dir: Dir, i: nat)
    requires vol.Ok() && i + 1 < |dir|
    ensures var s := dir[i + 1];
            var first, length := LeVal(s[20..24]), LeVal(s[24..32]);
            if s[1] % 4 >= 2 then
              Holds(vol, Owned(vol, dir, i), length) && forall c :: c in Owned(vol, dir, i) ==> first <= c < first + |Owned(vol, dir, i)|
            else Owned(vol, dir, i) == vol.chain(first, length)
  {
    var s := dir[i + 1];
    FieldsOfEntry(s, 15);
    ExtentHolds(vol, First(s), Length(s));
    ExtentSize(First(s), ClustersIn(vol, Length(s)));
  }

  predicate Marked(vol: Volume, bitmap: seq<bool>, c: nat) {
    2 <= c < vol.count + 2 && c - 2 < |bitmap| && bitmap[c - 2]
  }

  predicate AllMarked(vol: Volume, bitmap: seq<bool>, cs: set<nat>) {
    forall c :: c in cs ==> Marked(vol, bitmap, c)
  }

  /** What a power cut may not break: clusters in use are marked, and no two owners share one. */
  ghost predicate Sound(vol: Volume, bitmap: seq<bool>, dir: Dir) {
    && vol.Ok() && vol.count <= |bitmap| && Ended(dir)
    && AllMarked(vol, bitmap, vol.kept)
    && (forall i :: i in Visible(dir) ==> AllMarked(vol, bitmap, Owned(vol, dir, i)) && Owned(vol, dir, i) !! vol.kept)
    && (forall i, j :: i in Visible(dir) && j in Visible(dir) && i != j ==> Owned(vol, dir, i) !! Owned(vol, dir, j))
  }

  /** No visible file, nor what is kept, has any of these clusters. */
  ghost predicate Unowned(vol: Volume, dir: Dir, cs: set<nat>)
    requires vol.Ok()
  {
    vol.kept !! cs && forall i :: i in Visible(dir) ==> Owned(vol, dir, i) !! cs
  }

  lemma {:induction false} FreeIsUnowned(vol: Volume, bitmap: seq<bool>, dir: Dir, cs: set<nat>)
    requires Sound(vol, bitmap, dir) && forall c :: c in cs ==> !Marked(vol, bitmap, c)
    ensures Unowned(vol, dir, cs)
  {
    hide Visible, Owned, Marked, Ended;
    assert forall c :: c in vol.kept ==> Marked(vol, bitmap, c);
    forall i | i in Visible(dir) ensures Owned(vol, dir, i) !! cs {
      assert AllMarked(vol, bitmap, Owned(vol, dir, i));
    }
  }

  /** Marking, or clearing clusters nothing owns, keeps a volume sound. */
  lemma {:induction false} BitmapChanged(vol: Volume, bitmap: seq<bool>, bitmap': seq<bool>, dir: Dir, cs: set<nat>)
    requires Sound(vol, bitmap, dir) && |bitmap'| == |bitmap| && Unowned(vol, dir, cs)
    requires forall c :: Marked(vol, bitmap, c) && c !in cs ==> Marked(vol, bitmap', c)
    ensures Sound(vol, bitmap', dir)
  {
    hide Visible, Owned, Marked, Ended;
    forall i | i in Visible(dir) ensures AllMarked(vol, bitmap', Owned(vol, dir, i)) {
      assert AllMarked(vol, bitmap, Owned(vol, dir, i));
      forall c | c in Owned(vol, dir, i) ensures Marked(vol, bitmap', c) {
        assert Marked(vol, bitmap, c) && c !in cs;
      }
    }
    forall c | c in vol.kept ensures Marked(vol, bitmap', c) {
      assert Marked(vol, bitmap, c) && c !in cs;
    }
  }

  lemma {:induction false} OwnedSame(vol: Volume, dir: Dir, dir': Dir, i: nat)
    requires vol.Ok() && Valid(dir, i) && SameSet(dir, dir', i)
    ensures Owned(vol, dir, i) == Owned(vol, dir', i)
  {}

  /** A change to one set keeps a volume sound if what the set now owns is marked and nobody else's. */
  lemma {:induction false} SetReplaced(vol: Volume, bitmap: seq<bool>, dir: Dir, dir': Dir, p: nat)
    requires Sound(vol, bitmap, dir) && OthersKept(dir, dir', p) && Ended(dir')
    requires p in Visible(dir') ==>
               AllMarked(vol, bitmap, Owned(vol, dir', p)) && vol.kept !! Owned(vol, dir', p)
               && forall i :: i in Visible(dir) && i != p ==> Owned(vol, dir, i) !! Owned(vol, dir', p)
    ensures Sound(vol, bitmap, dir')
  {
    hide Visible, Owned, Marked, Ended, Valid;
    forall i | i in Visible(dir') && i != p ensures i in Visible(dir) && Owned(vol, dir', i) == Owned(vol, dir, i) {
      assert i in Visible(dir) && SameSet(dir, dir', i);
      VisibleIsValid(dir, i);
      OwnedSame(vol, dir, dir', i);
    }
  }

  lemma {:induction false} VisibleIsValid(dir: Dir, i: nat)
    requires i in Visible(dir)
    ensures Valid(dir, i) && i + 2 < |dir|
  {
    assert i in VisibleFrom(dir, 0);
  }

  // ---- a new set ----------------------------------------------------------------------------------

  predicate NameOk(name: seq<u8>) {
    0 < |name| <= 15 && forall k :: 0 <= k < |name| ==>
      0x20 <= name[k] <= 0x7E && name[k] !in [0x22, 0x2A, 0x2F, 0x3A, 0x3C, 0x3E, 0x3F, 0x5C, 0x7C]
  }

  /** The names exfat_create takes: up to fifteen printable characters, none of those exFAT keeps for itself. */
  lemma {:induction false} NameOkIs(name: seq<u8>)
    ensures NameOk(name) <==>
              0 < |name| <= 15 && forall k :: 0 <= k < |name| ==>
                ' ' <= name[k] as char <= '~' && name[k] as char !in "\"*/:<>?\\|"
  {
    var kept := "\"*/:<>?\\|";
    assert forall c: u8 :: 0x20 <= c <= 0x7E ==> (c as char in kept <==> c in [0x22, 0x2A, 0x2F, 0x3A, 0x3C, 0x3E, 0x3F, 0x5C, 0x7C]);
  }

  function Zeros(n: nat): (z: seq<u8>)
    ensures |z| == n
  {
    seq(n, _ => 0)
  }

  function Wide(name: seq<u8>): (w: seq<u8>)
    ensures |w| == 2 * |name|
  {
    if name == [] then [] else [name[0], 0] + Wide(name[1..])
  }

  lemma {:induction false} WideAt(name: seq<u8>, t: nat)
    requires t < |name|
    ensures Wide(name)[2 * t] == name[t] && Wide(name)[2 * t + 1] == 0
  {
    if t == 0 {
    } else {
      WideAt(name[1..], t - 1);
    }
  }

  function FileEntry(sum: nat, timestamp: nat): Entry {
    [T_FILE, 2] + Bytes(sum, 2) + [0x20, 0, 0, 0] + Bytes(timestamp, 4) + Bytes(timestamp, 4) + Bytes(timestamp, 4)
    + [0, 0, 0x80, 0x80, 0x80] + Zeros(7)
  }

  function StreamEntry(name: seq<u8>, first: nat, bytes: nat): Entry
    requires |name| < 0x100
  {
    [T_STREAM, 3, 0, |name|] + Bytes(HashOf(name), 2) + Zeros(14) + Bytes(first, 4) + Bytes(bytes, 8)
  }

  function NameEntry(name: seq<u8>): Entry
    requires |name| <= 15
  {
    [T_NAME, 0] + Wide(name) + Zeros(30 - 2 * |name|)
  }

  /** exfat_create's three entries, the checksum last. */
  function NewSet(name: seq<u8>, bytes: nat, timestamp: nat, first: nat): (set3: seq<Entry>)
    requires |name| <= 15
    ensures |set3| == 3
  {
    var s, n := StreamEntry(name, first, bytes), NameEntry(name);
    [FileEntry(SetSum([FileEntry(0, timestamp), s, n], 0, 2), timestamp), s, n]
  }

  lemma {:induction false} Sum16Range(sum: nat, b: seq<u8>)
    requires sum < 0x1_0000
    ensures Sum16(sum, b) < 0x1_0000
    decreases |b|
  {
    if b == [] {
    } else {
      Sum16Range(((if sum % 2 == 1 then 0x8000 else 0) + sum / 2 + b[0]) % 0x1_0000, b[1..]);
    }
  }

  lemma {:induction false} HashRange(name: seq<u8>)
    ensures HashOf(name) < 0x1_0000
  {
    if name == [] {
    } else {
      HashRange(name[..|name| - 1]);
      Sum16Range(HashOf(name[..|name| - 1]), [Upper(name[|name| - 1]), 0]);
    }
  }

  /** The checksum leaves out its own bytes. */
  lemma {:induction false} ChecksumApart(sum: nat, timestamp: nat)
    ensures FileEntry(sum, timestamp)[..2] == FileEntry(0, timestamp)[..2]
    ensures FileEntry(sum, timestamp)[4..] == FileEntry(0, timestamp)[4..]
    ensures FileEntry(sum, timestamp)[2..4] == Bytes(sum, 2)
    ensures FileEntry(sum, timestamp)[0] == T_FILE && FileEntry(sum, timestamp)[1] == 2
  {}

  predicate ZeroFrom(b: seq<u8>, at: nat) {
    forall k :: at <= k < |b| ==> b[k] == 0
  }

  /** The four bytes from `at` on are this time. */
  predicate TimeAt(e: Entry, at: nat, timestamp: nat)
    requires at + 4 <= 32
  {
    timestamp < Pow256(4) ==> LeVal(e[at..at + 4]) == timestamp
  }

  /** A new file's first entry: the archive attribute, made, changed and read at this time of UTC, nothing else. */
  predicate FreshFile(e: Entry, timestamp: nat) {
    && LeVal(e[4..6]) == 0x20 && TimeAt(e, 8, timestamp) && TimeAt(e, 12, timestamp) && TimeAt(e, 16, timestamp)
    && e[6..8] == [0, 0] && e[20..25] == [0, 0, 0x80, 0x80, 0x80] && ZeroFrom(e, 25)
  }

  lemma {:induction false} FileFields(sum: nat, timestamp: nat)
    ensures FreshFile(FileEntry(sum, timestamp), timestamp)
  {
    var e := FileEntry(sum, timestamp);
    assert e[4..6] == [0x20, 0];
    assert [0x20, 0][1..] == [0] && [0][1..] == [];
    assert e[8..12] == e[12..16] == e[16..20] == Bytes(timestamp, 4);
    assert e[20..25] == [0, 0, 0x80, 0x80, 0x80];
    if timestamp < Pow256(4) { LeBytes(timestamp, 4); }
  }

  lemma {:induction false} StreamFields(name: seq<u8>, first: nat, bytes: nat, s: Entry)
    requires |name| <= 15 && s == StreamEntry(name, first, bytes)
    ensures s[0] == T_STREAM && s[1] == 3 && s[3] == |name|
    ensures s[4..6] == Bytes(HashOf(name), 2) && s[8..16] == Zeros(8)
    ensures s[20..24] == Bytes(first, 4) && s[24..32] == Bytes(bytes, 8)
    ensures s[2] == 0 && ZeroFrom(s[6..20], 0)
  {}

  lemma {:induction false} LeZeros(n: nat)
    ensures LeVal(Zeros(n)) == 0
  {
    if n == 0 {
    } else {
      assert Zeros(n)[1..] == Zeros(n - 1);
      LeZeros(n - 1);
    }
  }

  lemma {:induction false} NameRead(name: seq<u8>)
    requires |name| <= 15
    ensures NameEntry(name)[0] == T_NAME
    ensures EntryChars(NameEntry(name))[..|name|] == name
    ensures NameEntry(name)[1] == 0 && ZeroFrom(NameEntry(name), 2 + 2 * |name|)
  {
    var e := NameEntry(name);
    assert e[2..2 + 2 * |name|] == Wide(name);
    forall t | 0 <= t < |name| ensures EntryChars(e)[t] == name[t] {
      WideAt(name, t);
      assert e[2 + 2 * t] == e[2..2 + 2 * |name|][2 * t] && e[3 + 2 * t] == e[2..2 + 2 * |name|][2 * t + 1];
    }
  }

  lemma {:induction false} SumMoved(a: Dir, i: nat, b: Dir, j: nat, count: nat)
    requires i + count < |a| && j + count < |b|
    requires a[i][..2] == b[j][..2] && a[i][4..] == b[j][4..]
    requires forall m :: i < m <= i + count ==> a[m] == b[m - i + j]
    ensures SetSum(a, i, count) == SetSum(b, j, count)
  {
    if count == 0 {
    } else {
      SumMoved(a, i, b, j, count - 1);
    }
  }

  lemma {:induction false} SetSumRange(dir: Dir, i: nat, count: nat)
    requires i + count < |dir|
    ensures SetSum(dir, i, count) < 0x1_0000
  {
    if count == 0 {
      Sum16Range(0, dir[i][..2]);
      Sum16Range(Sum16(0, dir[i][..2]), dir[i][4..]);
    } else {
      SetSumRange(dir, i, count - 1);
      Sum16Range(SetSum(dir, i, count - 1), dir[i + count]);
    }
  }

  predicate HasNewSet(dir: Dir, p: nat, name: seq<u8>, bytes: nat, timestamp: nat, first: nat)
    requires |name| <= 15
  {
    p + 3 <= |dir| && dir[p..p + 3] == NewSet(name, bytes, timestamp, first)
  }

  lemma {:induction false} NewSetSum(dir: Dir, p: nat, name: seq<u8>, bytes: nat, timestamp: nat, first: nat)
    requires |name| <= 15 && HasNewSet(dir, p, name, bytes, timestamp, first)
    ensures dir[p][0] == T_FILE && dir[p][1] == 2 && SetSum(dir, p, 2) == Stored(dir[p])
    ensures dir[p + 1] == StreamEntry(name, first, bytes) && dir[p + 2] == NameEntry(name)
  {
    hide FileEntry, StreamEntry, NameEntry, Bytes, LeVal, Sum16;
    var s, n := StreamEntry(name, first, bytes), NameEntry(name);
    var blank := [FileEntry(0, timestamp), s, n];
    var sum := SetSum(blank, 0, 2);
    var e := FileEntry(sum, timestamp);
    assert dir[p] == dir[p..p + 3][0] == e && dir[p + 1] == dir[p..p + 3][1] == s && dir[p + 2] == dir[p..p + 3][2] == n;
    ChecksumApart(sum, timestamp);
    SumMoved(dir, p, blank, 0, 2);
    SetSumRange(blank, 0, 2);
    Pow2Bytes();
    LeBytes(sum, 2);
  }

  lemma {:induction false} Pow2Bytes()
    ensures Pow256(2) == 0x1_0000
  {}

  /** exfat_create's set is one that the readers take, of this name, and says what it should. */
  lemma {:induction false} NewSetRead(dir: Dir, p: nat, name: seq<u8>, bytes: nat, timestamp: nat, first: nat)
    requires |name| <= 15 && HasNewSet(dir, p, name, bytes, timestamp, first)
    requires first < Pow256(4) && bytes < Pow256(8)
    ensures Valid(dir, p) && dir[p][1] == 2 && Matches(dir, p, name)
    ensures NoFatChain(dir[p + 1]) && First(dir[p + 1]) == first && Length(dir[p + 1]) == bytes
    ensures ValidLength(dir[p + 1]) == 0 && dir[p + 2][0] == 0xC1
    ensures dir[p + 1][2] == dir[p + 2][1] == 0 && ZeroFrom(dir[p + 1][6..20], 0) && ZeroFrom(dir[p + 2], 2 + 2 * |name|)
  {
    hide FileEntry, StreamEntry, NameEntry, Bytes, LeVal, Sum16, HashOf, SetSum, EntryChars;
    NewSetSum(dir, p, name, bytes, timestamp, first);
    var s := dir[p + 1];
    StreamFields(name, first, bytes, s);
    HashRange(name);
    Pow2Bytes();
    LeBytes(HashOf(name), 2);
    LeBytes(first, 4);
    LeBytes(bytes, 8);
    LeZeros(8);
    NameRead(name);
    assert Part(dir, p, 1) && Part(dir, p, 2);
    assert Parts(dir, p, 0) == 0 && Parts(dir, p, 1) == 1 && Parts(dir, p, 2) == 2;
    assert CharsTo(dir, p, 1, |name|) == [];
    assert CharsTo(dir, p, 2, |name|) == [] + EntryChars(dir[p + 2])[..|name|] == name;
  }
}
