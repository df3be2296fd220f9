/**
 * What the update engine (src/update.c) keeps across a reset, and what the
 * record, the flash and the card's backup file say together.
 *
 * Hashes and MACs are symbolic: a digest is the data it covers, so two digests
 * are equal exactly when the data are. A record copy that was cut while being
 * written is `None`: a torn record never passes its hash.
 */
module UpdateModel {
  import opened Wrappers

  const BLOCK := 4096               // UPD_BLOCK, bytes
  const SECTOR_BLOCKS := 2          // UPD_SECTOR / UPD_BLOCK
  const SLOT_BLOCKS := 40           // UPD_V5F_SLOT / UPD_BLOCK
  const SPAN_BLOCKS := 104          // UPD_APP_SPAN / UPD_BLOCK
  const SLOT := SLOT_BLOCKS * BLOCK
  const APP_SPAN := SPAN_BLOCKS * BLOCK
  const MMODE_FIRST := 38           // the machine-mode region: the slot's last two blocks
  const TRIAL_BOOTS := 3

  type Bytes = seq<bv8>
  type Block = b: Bytes | |b| == BLOCK witness seq(BLOCK, i => 0xFF as bv8)

  const Blank: Block := seq(BLOCK, i => 0xFF as bv8)

  datatype Component = V5F | Stage1 | V5FApp

  /** A package's description, from its signed block 0; `image` is its image hash. */
  datatype Package = Package(component: Component, hwRev: nat, length: nat, minVersion: nat,
                             version: nat, image: seq<Bytes>, mmode: Option<seq<Bytes>>)

  datatype Mac = NoMac | Mac(token: nat, version: nat, length: nat, chunks: seq<Bytes>)

  datatype Head = Head(version: nat, length: nat, nonce: nat, headerBlocks: nat)

  datatype BackupMac = NoBackupMac | BackupMac(token: nat, head: Head, data: seq<Block>)

  datatype State = Idle | BackingUp | Installing | Trial | RollingBack

  datatype Outcome = NoResult | Installed | Refused | NoBackup | RolledBack | Broken

  datatype Record = Record(
    seqno: nat, token: nat,
    v5fVersion: nat, v5fLength: nat, v5fMac: Mac,
    minV5f: nat, state: State, progress: nat,
    pkgVersion: nat, pkgLength: nat, pkgMin: nat, pkgImage: seq<Bytes>,
    backupVersion: nat, backupLength: nat, backupMac: BackupMac,
    result: Outcome)

  /** lfbackup.bin: block 0 (None without its magic), then the other blocks. */
  datatype Card = Card(head: Option<Head>, data: seq<Block>)

  /** What survives a reset beside the record: the image region, UPD_HEADER and the card. */
  datatype Media = Media(flash: seq<Block>, header: Block, card: Card)

  /**
   * The board's fixed configuration, and the code outside update.c as
   * functions: `parse` is sealed_check_signed's field, certificate, serial and
   * signature checks; `unwraps` the rest of sealed_mount_package; `open` is
   * sealed_open_block; `ctr` is ctr_crypt_block under the token's card key.
   */
  datatype Config = Config(checkPages: bool, checkSignature: bool, hwRev: nat, backupBlocks: nat,
                           parse: Block -> Option<Package>,
                           unwraps: (Block, nat) -> bool,
                           open: (Block, nat, Block) -> Option<Block>,
                           ctr: (nat, nat, nat, Block) -> Block)
  {
    /** What holds of every package a release key signs, of one that mounts, and of CTR mode. */
    ghost predicate Valid() {
      && (forall b, n :: unwraps(b, n) && parse(b).Some? ==> BlocksOf(parse(b).value.length) < n)
      && (forall b :: parse(b).Some? ==> parse(b).value.length > 0)
      && (forall b :: parse(b).Some? ==> parse(b).value.minVersion <= parse(b).value.version)
      && (forall k, nonce, n, b :: ctr(k, nonce, n, ctr(k, nonce, n, b)) == b)
    }
  }

  /** An installed or backed-up image; `header` only matters with checkSignature. */
  datatype Image = Image(version: nat, length: nat, chunks: seq<Bytes>, header: Option<Block>)

  // ---- lengths ------------------------------------------------------------

  function BlocksOf(length: nat): (n: nat) {
    (length + BLOCK - 1) / BLOCK
  }

  /** How many bytes of block n belong to an image of `length` bytes. */
  function Take(length: nat, n: nat): (t: nat)
    requires n < BlocksOf(length)
    ensures 0 < t <= BLOCK
  {
    if length - n * BLOCK < BLOCK then length - n * BLOCK else BLOCK
  }

  /** The image of `length` bytes in these blocks, block by block. */
  function Chunks(blocks: seq<Block>, length: nat): (c: seq<Bytes>)
    requires BlocksOf(length) <= |blocks|
    ensures |c| == BlocksOf(length)
  {
    seq(BlocksOf(length), n requires 0 <= n < BlocksOf(length) => blocks[n][..Take(length, n)])
  }

  function MacLength(io: Config, length: nat): nat {
    if io.checkPages then APP_SPAN else if length <= SLOT then length else SLOT
  }

  function InstalledLength(io: Config, length: nat): nat {
    if io.checkPages then APP_SPAN else length
  }

  predicate SectorDone(blk: nat, blocks: nat) {
    (blk + 1) % SECTOR_BLOCKS == 0 || blk + 1 == blocks
  }

  /** A place a resume can start: a sector's start, or the end. */
  predicate Resumable(progress: nat, blocks: nat) {
    progress <= blocks && (progress % SECTOR_BLOCKS == 0 || progress == blocks)
  }

  predicate LengthOk(io: Config, length: nat) {
    length <= APP_SPAN && ((io.checkPages || io.checkSignature) && length != 0 ==> length == APP_SPAN)
  }

  // ---- the record ---------------------------------------------------------

  /** upd_record_load: the valid copy with the higher number. */
  function Load(a: Option<Record>, b: Option<Record>): Option<Record> {
    match (a, b)
    case (None, None) => None
    case (Some(x), Some(y)) => if x.seqno >= y.seqno then a else b
    case (Some(_), None) => a
    case (None, Some(_)) => b
  }

  predicate OlderThan(copy: Option<Record>, seqno: nat) {
    copy.None? || copy.value.seqno < seqno
  }

  /** The copies hold r: in the copy of its number's parity, the other one invalid or older. */
  predicate Holds(a: Option<Record>, b: Option<Record>, r: Record) {
    if r.seqno % 2 == 0 then a == Some(r) && OlderThan(b, r.seqno)
    else b == Some(r) && OlderThan(a, r.seqno)
  }

  lemma LoadHolds(a: Option<Record>, b: Option<Record>, r: Record)
    requires Holds(a, b, r)
    ensures Load(a, b) == Some(r)
  {}

  /** What a store of r, cut anywhere, can make of the copies: only r's own copy changes. */
  ghost predicate StoreCut(a: Option<Record>, b: Option<Record>, r: Record, a': Option<Record>, b': Option<Record>) {
    if r.seqno % 2 == 1 then a' == a && (b' == b || b'.None? || b' == Some(r))
    else b' == b && (a' == a || a'.None? || a' == Some(r))
  }

  /** A store is atomic: the next load finds the record before it or, whole, the one it stored. */
  lemma StoreIsAtomic(a: Option<Record>, b: Option<Record>, r: Record, r': Record, a': Option<Record>, b': Option<Record>)
    requires Holds(a, b, r) && r'.seqno == r.seqno + 1 && StoreCut(a, b, r', a', b')
    ensures Load(a', b') == Some(r) || Load(a', b') == Some(r')
    ensures Holds(a', b', Load(a', b').value)
    ensures Load(a', b') == Some(r') <==> (if r'.seqno % 2 == 1 then b' else a') == Some(r')
  {}

  // ---- what the flash holds ---------------------------------------------------

  function InstalledMac(io: Config, flash: seq<Block>, r: Record): Mac
    requires |flash| == SPAN_BLOCKS && r.v5fLength <= APP_SPAN
  {
    var n := MacLength(io, r.v5fLength);
    Mac(r.token, r.v5fVersion, n, Chunks(flash, n))
  }

  function FlashImage(io: Config, m: Media, r: Record): Image
    requires |m.flash| == SPAN_BLOCKS && r.v5fLength <= APP_SPAN
  {
    Image(r.v5fVersion, r.v5fLength, Chunks(m.flash, r.v5fLength),
          if io.checkSignature then Some(m.header) else None)
  }

  /** signed_ok's verdict on an image stored with its block 0. */
  predicate SignedImage(io: Config, img: Image, min: nat) {
    && img.header.Some?
    && io.parse(img.header.value).Some?
    && var p := io.parse(img.header.value).value;
    && p.version >= min
    && p.component == V5FApp && p.version == img.version && p.length == img.length
    && (p.hwRev == 0 || p.hwRev == io.hwRev)
    && p.image == img.chunks
    && p.mmode.Some? && SLOT_BLOCKS <= |img.chunks|
    && p.mmode.value == img.chunks[MMODE_FIRST..SLOT_BLOCKS]
  }

  /** The boot check: the image's MAC, and with checkSignature its signed block 0. */
  predicate InstalledOk(io: Config, m: Media, r: Record)
    requires |m.flash| == SPAN_BLOCKS && r.v5fLength <= APP_SPAN
  {
    && InstalledMac(io, m.flash, r) == r.v5fMac
    && (io.checkSignature ==> SignedImage(io, FlashImage(io, m, r), r.minV5f))
  }

  // ---- byte by byte --------------------------------------------------------------

  /** Byte i of the image region. */
  function ByteAt(flash: seq<Block>, i: nat): bv8
    requires i < |flash| * BLOCK
  {
    flash[i / BLOCK][i % BLOCK]
  }

  /** Byte i of an image kept block by block, if it has one. */
  function ByteOf(chunks: seq<Bytes>, i: nat): Option<bv8> {
    if i / BLOCK < |chunks| && i % BLOCK < |chunks[i / BLOCK]| then Some(chunks[i / BLOCK][i % BLOCK]) else None
  }

  /** The image of `length` bytes in the flash is its first `length` bytes, in their order, and no more. */
  lemma {:induction false} ChunkBytes(flash: seq<Block>, length: nat, i: nat)
    requires length <= |flash| * BLOCK
    ensures BlocksOf(length) <= |flash|
    ensures ByteOf(Chunks(flash, length), i) == if i < length then Some(ByteAt(flash, i)) else None
  {
    var k := i / BLOCK;
    assert i == k * BLOCK + i % BLOCK;
  }

  ghost predicate SameBytes(f: seq<Block>, g: seq<Block>, length: nat)
    requires length <= |f| * BLOCK && length <= |g| * BLOCK
  {
    forall i: nat :: i < length ==> ByteAt(f, i) == ByteAt(g, i)
  }

  /** Two images of the same length are the same exactly if each byte is. */
  lemma {:induction false} ChunksPin(f: seq<Block>, g: seq<Block>, length: nat)
    requires length <= |f| * BLOCK && length <= |g| * BLOCK
    ensures BlocksOf(length) <= |f| && BlocksOf(length) <= |g|
    ensures Chunks(f, length) == Chunks(g, length) <==> SameBytes(f, g, length)
  {
    var c, d := Chunks(f, length), Chunks(g, length);
    if c == d {
      forall i: nat | i < length ensures ByteAt(f, i) == ByteAt(g, i) {
        ChunkBytes(f, length, i);
        ChunkBytes(g, length, i);
      }
    } else if SameBytes(f, g, length) {
      forall k | 0 <= k < |c| ensures c[k] == d[k] {
        forall j | 0 <= j < |c[k]| ensures c[k][j] == d[k][j] {
          var i := k * BLOCK + j;
          assert i / BLOCK == k && i % BLOCK == j;
          assert ByteAt(f, i) == ByteAt(g, i);
        }
      }
    }
  }

  /** The bytes of the region that the boot check's MAC covers, for an image of `length` bytes: the whole span, or no more than the slot. */
  predicate Covered(io: Config, length: nat, i: nat) {
    i < 425984 && (io.checkPages || (i < length && i < 163840))
  }

  ghost predicate SameCovered(io: Config, f: seq<Block>, g: seq<Block>, length: nat)
    requires |f| == |g| == SPAN_BLOCKS
  {
    forall i: nat :: Covered(io, length, i) ==> ByteAt(f, i) == ByteAt(g, i)
  }

  /** Two MACs are the same exactly if token, version, the bytes covered and each of those bytes are. */
  lemma {:induction false} MacPins(io: Config, f: seq<Block>, r: Record, g: seq<Block>, r': Record)
    requires |f| == |g| == SPAN_BLOCKS && r.v5fLength <= APP_SPAN && r'.v5fLength <= APP_SPAN
    ensures InstalledMac(io, f, r) == InstalledMac(io, g, r') <==>
              && r.token == r'.token && r.v5fVersion == r'.v5fVersion
              && (forall i: nat :: Covered(io, r.v5fLength, i) <==> Covered(io, r'.v5fLength, i))
              && SameCovered(io, f, g, r.v5fLength)
  {
    var n, n' := MacLength(io, r.v5fLength), MacLength(io, r'.v5fLength);
    assert forall i: nat :: Covered(io, r.v5fLength, i) <==> i < n;
    assert forall i: nat :: Covered(io, r'.v5fLength, i) <==> i < n';
    ChunksPin(f, g, n);
    if n != n' {
      var least := if n < n' then n else n';
      assert Covered(io, r.v5fLength, least) != Covered(io, r'.v5fLength, least);
    }
  }

  /** Two images are the same exactly if version, length, each byte and the block 0 kept with them are. */
  lemma {:induction false} ImagePins(io: Config, m: Media, r: Record, m': Media, r': Record)
    requires |m.flash| == |m'.flash| == SPAN_BLOCKS && r.v5fLength <= APP_SPAN && r'.v5fLength <= APP_SPAN
    ensures FlashImage(io, m, r) == FlashImage(io, m', r') <==>
              && r.v5fVersion == r'.v5fVersion && r.v5fLength == r'.v5fLength
              && SameBytes(m.flash, m'.flash, r.v5fLength)
              && (io.checkSignature ==> m.header == m'.header)
  {
    ChunksPin(m.flash, m'.flash, r.v5fLength);
  }

  /** A byte of the region, and of the machine-mode region in it, is as the package describes it. */
  predicate Described(p: Package, flash: seq<Block>, i: nat)
    requires i < |flash| * BLOCK
  {
    && ByteOf(p.image, i) == Some(ByteAt(flash, i))
    && (155648 <= i < 163840 ==> p.mmode.Some? && ByteOf(p.mmode.value, i - 155648) == Some(ByteAt(flash, i)))
  }

  /** With checkSignature: what passes is what a signed package describes, byte by byte, for this board and no older than the minimum. */
  lemma {:induction false} SignedPins(io: Config, m: Media, r: Record)
    requires |m.flash| == SPAN_BLOCKS && r.v5fLength <= APP_SPAN && LengthOk(io, r.v5fLength)
    requires io.checkSignature && r.v5fLength != 0 && InstalledOk(io, m, r)
    ensures io.parse(m.header).Some? && r.v5fLength == 425984
    ensures var p := io.parse(m.header).value;
            && p.component == V5FApp && p.length == r.v5fLength && p.version == r.v5fVersion >= r.minV5f
            && (p.hwRev == 0 || p.hwRev == io.hwRev)
            && forall i: nat :: i < 425984 ==> Described(p, m.flash, i)
  {
    var p, c := io.parse(m.header).value, Chunks(m.flash, r.v5fLength);
    forall i: nat | i < 425984 ensures Described(p, m.flash, i) {
      ChunkBytes(m.flash, r.v5fLength, i);
      if 155648 <= i < 163840 {
        assert i / BLOCK - MMODE_FIRST == (i - 155648) / BLOCK && i % BLOCK == (i - 155648) % BLOCK;
        assert c[MMODE_FIRST..SLOT_BLOCKS][i / BLOCK - MMODE_FIRST] == c[i / BLOCK];
      }
    }
  }

  /** A flash that passes the boot check has every byte covered as it was when the MAC was made. */
  lemma {:induction false} CheckPins(io: Config, m: Media, r: Record, f: seq<Block>)
    requires |m.flash| == |f| == SPAN_BLOCKS && r.v5fLength <= APP_SPAN
    requires InstalledOk(io, m, r) && InstalledOk(io, m.(flash := f), r)
    ensures SameCovered(io, f, m.flash, r.v5fLength)
  {
    MacPins(io, f, r, m.flash, r);
  }

  // ---- what the card holds -----------------------------------------------------

  /** backup_good: lfbackup.bin still holds what the record says. */
  predicate BackupGood(io: Config, card: Card, r: Record) {
    && r.backupLength != 0
    && (io.checkPages ==> r.backupLength == APP_SPAN)
    && io.backupBlocks > 0
    && card.head.Some?
    && var h := card.head.value;
    && h.version == r.backupVersion && h.length == r.backupLength
    && h.headerBlocks <= 1 && (io.checkSignature ==> h.headerBlocks == 1)
    && var n := BlocksOf(h.length) + h.headerBlocks;
    && n <= |card.data|
    && r.backupMac == BackupMac(r.token, h, card.data[..n])
  }

  /** Block n of the backup as roll_back programs it. */
  function Restored(io: Config, mac: BackupMac, n: nat): Block
    requires mac.BackupMac? && n < |mac.data|
  {
    io.ctr(mac.token, mac.head.nonce, n + 1, mac.data[n])
  }

  function RestoredBlocks(io: Config, mac: BackupMac): (s: seq<Block>)
    requires mac.BackupMac?
    ensures |s| == |mac.data|
  {
    seq(|mac.data|, n requires 0 <= n < |mac.data| => Restored(io, mac, n))
  }

  function BackupImage(io: Config, card: Card, r: Record): Image
    requires BackupGood(io, card, r)
  {
    var mac := r.backupMac;
    Image(r.backupVersion, r.backupLength, Chunks(RestoredBlocks(io, mac), r.backupLength),
          if io.checkSignature then Some(mac.data[BlocksOf(r.backupLength)]) else None)
  }

  /** A backup that roll_back accepts and whose restored image passes the boot check. */
  predicate BackupAccepted(io: Config, card: Card, r: Record) {
    && BackupGood(io, card, r)
    && r.backupVersion >= r.minV5f
    && (io.checkSignature ==> SignedImage(io, BackupImage(io, card, r), r.minV5f))
  }

  // ---- the invariant ---------------------------------------------------------------

  predicate RecordOk(io: Config, m: Media, r: Record)
    requires |m.flash| == SPAN_BLOCKS
  {
    && LengthOk(io, r.v5fLength) && LengthOk(io, r.backupLength)
    && (r.v5fLength != 0 ==> r.v5fVersion >= r.minV5f)
    && match r.state
       case Idle => true
       case BackingUp => true
       case Installing =>
         && r.pkgMin <= r.pkgVersion
         && BlocksOf(r.pkgLength) <= SPAN_BLOCKS && Resumable(r.progress, BlocksOf(r.pkgLength))
       case Trial =>
         && r.pkgMin <= r.pkgVersion == r.v5fVersion && r.progress <= TRIAL_BOOTS
         && r.v5fLength != 0 && InstalledOk(io, m, r)
       case RollingBack =>
         && Resumable(r.progress, BlocksOf(r.backupLength))
         && (r.backupMac.BackupMac? && BlocksOf(r.backupLength) <= |r.backupMac.data| ==>
               RestoredTo(io, m.flash, r, r.progress))
  }

  /** Blocks 0..n-1 of the flash are the backup's. */
  predicate RestoredTo(io: Config, flash: seq<Block>, r: Record, n: nat)
    requires r.backupMac.BackupMac? && n <= |flash| && n <= |r.backupMac.data|
  {
    forall k :: 0 <= k < n ==> flash[k] == Restored(io, r.backupMac, k)
  }

  ghost predicate Shape(io: Config, m: Media) {
    && |m.flash| == SPAN_BLOCKS
    && |m.card.data| == (if io.backupBlocks > 0 then io.backupBlocks - 1 else 0)
  }

  /** The board is as some run of the engine left it, with record r in its copies. */
  ghost predicate Consistent(io: Config, m: Media, a: Option<Record>, b: Option<Record>, r: Record) {
    Shape(io, m) && Holds(a, b, r) && RecordOk(io, m, r)
  }

  /** No image installed, and none put back, with one on the card that could be. */
  predicate Stranded(io: Config, m: Media, r: Record) {
    (r.state == Idle || r.state == BackingUp) && r.v5fLength == 0 && BackupAccepted(io, m.card, r)
  }

  /** The image that isn't lost: the installed one, or else the backup. */
  function Recoverable(io: Config, m: Media, r: Record): Option<Image>
    requires |m.flash| == SPAN_BLOCKS && r.v5fLength <= APP_SPAN
  {
    if (r.state == Idle || r.state == BackingUp) && r.v5fLength != 0 && InstalledOk(io, m, r) then
      Some(FlashImage(io, m, r))
    else if BackupAccepted(io, m.card, r) then
      Some(BackupImage(io, m.card, r))
    else
      None
  }
}
