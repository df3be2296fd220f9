/**
 * The update engine itself (src/update.c), over flash and card operations that
 * may fail, or lose the power, at any point. An operation that fails leaves
 * whatever it was writing with arbitrary contents; once the power is gone no
 * operation has any effect.
 */
module UpdateEngine {
  import opened Wrappers
  import opened UpdateModel

  datatype Err = NoError | FlashError | CardError | BlockReadError | ParseError | OtherError

  /** What upd_boot says to do. */
  datatype Verdict = Start | Recovery | Failed(err: Err)

  // ---- the package in lfstage.bin ------------------------------------------------

  /** The package's block 0 is one mount_package takes. */
  predicate Mounts(io: Config, stage: seq<Block>, min: nat) {
    && |stage| > 0
    && io.parse(stage[0]).Some?
    && var p := io.parse(stage[0]).value;
    && p.version >= min && io.unwraps(stage[0], |stage|)
    && p.component != Stage1
    && (p.hwRev == 0 || p.hwRev == io.hwRev)
    && (io.checkSignature ==> p.component == V5FApp)
    && (p.component == V5F ==> p.length <= SLOT)
    && (p.component == V5FApp ==> p.length == APP_SPAN)
  }

  /** Content block n (from 0), decrypted, if it passes its hash. */
  function Content(io: Config, stage: seq<Block>, n: nat): Option<Block> {
    if n + 1 < |stage| then io.open(stage[0], n + 1, stage[n + 1]) else None
  }

  /** Blocks 0..n-1 of the flash are the package's. */
  predicate Programmed(io: Config, flash: seq<Block>, stage: seq<Block>, n: nat)
    requires n <= |flash|
  {
    forall k :: 0 <= k < n ==> Content(io, stage, k) == Some(flash[k])
  }

  /** Every content block opens, and together they are the image block 0 names. */
  predicate Genuine(io: Config, stage: seq<Block>, p: Package) {
    && (forall k :: 0 <= k < BlocksOf(p.length) ==> Content(io, stage, k).Some?)
    && Chunks(Contents(io, stage, BlocksOf(p.length)), p.length) == p.image
  }

  function Contents(io: Config, stage: seq<Block>, n: nat): (s: seq<Block>)
    ensures |s| == n
  {
    seq(n, k requires 0 <= k < n => match Content(io, stage, k) case Some(b) => b case None => Blank)
  }

  /** With checkSignature: the package's block 0 will pass the boot check. */
  predicate SignedPackage(io: Config, p: Package) {
    p.mmode.Some? && SLOT_BLOCKS <= |p.image| && p.mmode.value == p.image[MMODE_FIRST..SLOT_BLOCKS]
  }

  /** The staged package is the one the record is installing. */
  predicate Named(io: Config, stage: seq<Block>, r: Record) {
    && Mounts(io, stage, r.minV5f)
    && var p := io.parse(stage[0]).value;
    && p.version == r.pkgVersion && p.length == r.pkgLength && p.image == r.pkgImage
  }

  /** Its image is as its block 0 says, and will pass the boot check. */
  predicate Sincere(io: Config, stage: seq<Block>) {
    && |stage| > 0 && io.parse(stage[0]).Some?
    && var p := io.parse(stage[0]).value;
    && Genuine(io, stage, p) && (io.checkSignature ==> SignedPackage(io, p))
  }

  predicate Installable(io: Config, stage: seq<Block>, r: Record) {
    Named(io, stage, r) && Sincere(io, stage)
  }

  /** Programming flash only clears bits: a block that isn't erased doesn't take the data. */
  function Overwrite(old_: Block, data: Block): Block {
    seq(BLOCK, i requires 0 <= i < BLOCK => old_[i] & data[i])
  }

  lemma OverwriteBlank(data: Block)
    ensures Overwrite(Blank, data) == data
  {
    forall i | 0 <= i < BLOCK ensures Overwrite(Blank, data)[i] == data[i] {
      assert Blank[i] == 0xFF;
      AllOnes(data[i]);
    }
  }

  lemma AllOnes(x: bv8)
    ensures 0xFF & x == x
  {}

  /** A restored flash holds the backup's image. */
  lemma RestoredIsBackup(io: Config, m: Media, r: Record, r': Record)
    requires |m.flash| == SPAN_BLOCKS && BlocksOf(r.backupLength) <= SPAN_BLOCKS
    requires BackupGood(io, m.card, r)
    requires RestoredTo(io, m.flash, r, BlocksOf(r.backupLength))
    requires io.checkSignature ==> m.header == r.backupMac.data[BlocksOf(r.backupLength)]
    requires r'.v5fVersion == r.backupVersion && r'.v5fLength == r.backupLength <= APP_SPAN
    ensures FlashImage(io, m, r') == BackupImage(io, m.card, r)
  {
    var n := BlocksOf(r.backupLength);
    var c, c' := Chunks(m.flash, r.backupLength), Chunks(RestoredBlocks(io, r.backupMac), r.backupLength);
    forall k | 0 <= k < n ensures c[k] == c'[k] {
      assert m.flash[k] == RestoredBlocks(io, r.backupMac)[k];
    }
  }

  /** The record roll_back stores, its MAC apart. */
  predicate RolledBackRecord(r: Record, r': Record) {
    r' == r.(seqno := r'.seqno, v5fVersion := r.backupVersion, v5fLength := r.backupLength, v5fMac := r'.v5fMac,
             state := Idle, progress := 0, result := RolledBack)
  }

  /** The same backup, the same minimum. */
  predicate SameBackup(r: Record, r': Record) {
    && r'.token == r.token && r'.minV5f == r.minV5f && r'.backupVersion == r.backupVersion
    && r'.backupLength == r.backupLength && r'.backupMac == r.backupMac
  }

  lemma SameBackupAccepted(io: Config, card: Card, r: Record, r': Record)
    requires SameBackup(r, r')
    ensures BackupGood(io, card, r') == BackupGood(io, card, r)
    ensures BackupAccepted(io, card, r') == BackupAccepted(io, card, r)
    ensures BackupGood(io, card, r) ==> BackupImage(io, card, r') == BackupImage(io, card, r)
  {}

  /** While the backup is the image to go back to, it stays so whatever happens to the flash. */
  lemma StillBackedUp(io: Config, m: Media, m': Media, r: Record, r': Record)
    requires |m.flash| == |m'.flash| == SPAN_BLOCKS && r.v5fLength <= APP_SPAN && r'.v5fLength <= APP_SPAN
    requires SameBackup(r, r') && m'.card == m.card
    requires r.state != Idle && r.state != BackingUp
    requires r'.state == Idle || r'.state == BackingUp ==> r'.v5fLength == 0
    ensures Recoverable(io, m', r') == Recoverable(io, m, r)
  {
    SameBackupAccepted(io, m.card, r, r');
  }

  lemma RolledBackKeeps(io: Config, m: Media, m': Media, r: Record, r': Record)
    requires |m.flash| == |m'.flash| == SPAN_BLOCKS && r.v5fLength <= APP_SPAN && r'.v5fLength <= APP_SPAN
    requires r.state == RollingBack && RolledBackRecord(r, r')
    requires m'.card == m.card && BackupGood(io, m.card, r)
    requires FlashImage(io, m', r') == BackupImage(io, m.card, r)
    requires r'.v5fMac == InstalledMac(io, m'.flash, r')
    ensures Recoverable(io, m, r).Some? ==> Recoverable(io, m', r') == Recoverable(io, m, r)
  {}

  /** An update given up, nothing in the way: a good backup no older than the minimum is back, or no image is left. */
  ghost predicate GaveUp(io: Config, m: Media, r: Record, m': Media, r': Record)
    requires |m'.flash| == SPAN_BLOCKS
  {
    && r'.state == Idle && m'.card == m.card
    && (BackupGood(io, m.card, r) && r.backupVersion >= r.minV5f <==> r'.result == RolledBack)
    && (r'.result == RolledBack ==>
          r'.v5fLength <= APP_SPAN && FlashImage(io, m', r') == BackupImage(io, m.card, r))
    && (r'.result != RolledBack ==> r'.v5fLength == 0)
  }

  lemma GaveUpSame(io: Config, m: Media, r: Record, m1: Media, r1: Record, m': Media, r': Record)
    requires |m'.flash| == SPAN_BLOCKS && SameBackup(r, r1) && m1.card == m.card
    ensures GaveUp(io, m1, r1, m', r') ==> GaveUp(io, m, r, m', r')
  {
    SameBackupAccepted(io, m.card, r, r1);
  }

  /** A restored image that fails the boot check came from a backup that isn't accepted. */
  lemma BadBackup(io: Config, m: Media, r: Record, r': Record)
    requires |m.flash| == SPAN_BLOCKS && r'.v5fLength <= APP_SPAN && SameBackup(r, r') && BackupGood(io, m.card, r)
    requires FlashImage(io, m, r') == BackupImage(io, m.card, r) && r'.v5fMac == InstalledMac(io, m.flash, r')
    requires !InstalledOk(io, m, r')
    ensures !BackupAccepted(io, m.card, r')
  {
    SameBackupAccepted(io, m.card, r, r');
  }

  // ---- making a backup ----------------------------------------------------------------

  function HeaderBlocks(io: Config): nat {
    if io.checkSignature then 1 else 0
  }

  /** The block's first n bytes, then FF. */
  function Padded(data: Block, n: nat): Block
    requires n <= BLOCK
  {
    seq(BLOCK, i requires 0 <= i < BLOCK => if i < n then data[i] else 0xFF)
  }

  /** The card's blocks decrypt to the image of `length` bytes in flash. */
  ghost predicate ReadsBack(io: Config, m: Media, token: nat, nonce: nat, length: nat)
    requires BlocksOf(length) <= |m.flash| && BlocksOf(length) <= |m.card.data|
  {
    forall k :: 0 <= k < BlocksOf(length) ==> BlockReadsBack(io, m, token, nonce, length, k)
  }

  predicate BlockReadsBack(io: Config, m: Media, token: nat, nonce: nat, length: nat, k: nat)
    requires k < BlocksOf(length) && k < |m.flash| && k < |m.card.data|
  {
    var n := Take(length, k);
    io.ctr(token, nonce, k + 1, m.card.data[k])[..n] == m.flash[k][..n]
  }

  lemma PaddedReadsBack(io: Config, m: Media, token: nat, nonce: nat, length: nat)
    requires io.Valid() && BlocksOf(length) <= |m.flash| && BlocksOf(length) <= |m.card.data|
    requires forall k :: 0 <= k < BlocksOf(length) ==>
               m.card.data[k] == io.ctr(token, nonce, k + 1, Padded(m.flash[k], Take(length, k)))
    ensures ReadsBack(io, m, token, nonce, length)
  {
    forall k | 0 <= k < BlocksOf(length)
      ensures BlockReadsBack(io, m, token, nonce, length, k)
    {
      var n := Take(length, k);
      assert Padded(m.flash[k], n)[..n] == m.flash[k][..n];
    }
  }

  /** Past the image's last byte the last block holds FF, encrypted like the rest. */
  predicate PaddedOut(io: Config, r: Record) {
    r.backupMac.BackupMac? && forall k :: 0 <= k < BlocksOf(r.backupLength) && k < |r.backupMac.data| ==>
      BlankFrom(Restored(io, r.backupMac, k), r.backupLength - k * BLOCK)
  }

  predicate BlankFrom(b: Block, n: int) {
    forall i :: 0 <= i < BLOCK && n <= i ==> b[i] == 0xFF
  }

  lemma PaddingIs(io: Config, m: Media, r: Record)
    requires io.Valid() && r.backupMac.BackupMac? && BlocksOf(r.backupLength) <= |m.flash|
    requires BlocksOf(r.backupLength) <= |r.backupMac.data| && BlocksOf(r.backupLength) <= |m.card.data|
    requires forall k :: 0 <= k < BlocksOf(r.backupLength) ==>
               && r.backupMac.data[k] == m.card.data[k]
               && m.card.data[k] == io.ctr(r.backupMac.token, r.backupMac.head.nonce, k + 1, Padded(m.flash[k], Take(r.backupLength, k)))
    ensures PaddedOut(io, r)
  {
    forall k | 0 <= k < BlocksOf(r.backupLength) ensures BlankFrom(Restored(io, r.backupMac, k), r.backupLength - k * BLOCK) {
      assert Restored(io, r.backupMac, k) == Padded(m.flash[k], Take(r.backupLength, k));
    }
  }

  /** The card holds the image in flash, as the record says. */
  predicate BackedUp(io: Config, m: Media, r: Record) {
    && r.backupVersion == r.v5fVersion && r.backupLength == r.v5fLength
    && BackupGood(io, m.card, r)
    && |m.flash| == SPAN_BLOCKS && r.v5fLength <= APP_SPAN
    && BackupImage(io, m.card, r) == FlashImage(io, m, r)
  }

  lemma BackupHoldsImage(io: Config, m: Media, r: Record)
    requires |m.flash| == SPAN_BLOCKS && 0 < r.v5fLength && LengthOk(io, r.v5fLength) && io.backupBlocks > 0
    requires m.card.head.Some?
    requires var h := m.card.head.value;
             && h.version == r.v5fVersion == r.backupVersion && h.length == r.v5fLength == r.backupLength
             && h.headerBlocks == HeaderBlocks(io)
             && BlocksOf(h.length) + h.headerBlocks <= |m.card.data|
             && r.backupMac == BackupMac(r.token, h, m.card.data[..BlocksOf(h.length) + h.headerBlocks])
             && ReadsBack(io, m, r.token, h.nonce, h.length)
    requires io.checkSignature ==> m.card.data[BlocksOf(r.v5fLength)] == m.header
    ensures BackupGood(io, m.card, r)
    ensures BackupImage(io, m.card, r) == FlashImage(io, m, r)
  {
    var c, c' := Chunks(m.flash, r.v5fLength), Chunks(RestoredBlocks(io, r.backupMac), r.v5fLength);
    forall k | 0 <= k < BlocksOf(r.v5fLength) ensures c[k] == c'[k] {
      assert RestoredBlocks(io, r.backupMac)[k] == Restored(io, r.backupMac, k);
      assert BlockReadsBack(io, m, r.token, m.card.head.value.nonce, r.v5fLength, k);
    }
  }

  // ---- installing -----------------------------------------------------------------------

  /** The record install stores once the image checks out. */
  predicate TrialRecord(io: Config, p: Package, r: Record, r': Record) {
    r' == r.(seqno := r'.seqno, v5fVersion := p.version, v5fLength := if io.checkPages then APP_SPAN else p.length,
             v5fMac := r'.v5fMac, state := Trial, progress := 0)
  }

  /** What one call of install, cut anywhere, makes of an INSTALLING record. */
  ghost predicate InstallStepOk(io: Config, stage: seq<Block>, m: Media, r: Record, m': Media, r': Record)
    requires |m.flash| == |m'.flash| == SPAN_BLOCKS
    requires r.progress <= SPAN_BLOCKS && BlocksOf(r.pkgLength) <= SPAN_BLOCKS
  {
    && (r'.state == Installing ==>
          && r' == r.(progress := r'.progress, seqno := r'.seqno) && r'.progress <= SPAN_BLOCKS && Forward(m, r, m', r')
          && (Programmed(io, m.flash, stage, r.progress) ==> Programmed(io, m'.flash, stage, r'.progress)))
    && (r'.state == Trial ==>
          && Named(io, stage, r)
          && var p := io.parse(stage[0]).value;
          && TrialRecord(io, p, r, r')
          && Chunks(m'.flash, p.length) == r.pkgImage
          && (Programmed(io, m.flash, stage, r.progress) ==>
                Programmed(io, m'.flash, stage, BlocksOf(r.pkgLength))))
    && (r'.state == Installing || r'.state == Trial || r'.state == RollingBack || r'.state == Idle)
  }

  lemma {:induction false} ProgrammedMore(io: Config, stage: seq<Block>, m: Media, r: Record, m': Media, r': Record, blk: nat)
    requires |m.flash| == |m'.flash| && r.progress <= blk < |m.flash| && forall k :: 0 <= k < blk ==> m'.flash[k] == m.flash[k]
    requires r'.progress == r.progress || (r'.progress == blk + 1 && Content(io, stage, blk) == Some(m'.flash[blk]))
    ensures Programmed(io, m.flash, stage, r.progress) && r'.progress == r.progress ==> Programmed(io, m'.flash, stage, r'.progress)
    ensures Programmed(io, m.flash, stage, blk) ==> Programmed(io, m'.flash, stage, r'.progress)
    ensures Programmed(io, m.flash, stage, blk) && Content(io, stage, blk) == Some(m'.flash[blk]) ==> Programmed(io, m'.flash, stage, blk + 1)
  {}

  /** Flash programmed with a genuine package holds the package's image. */
  lemma ProgrammedImage(io: Config, flash: seq<Block>, stage: seq<Block>, p: Package)
    requires BlocksOf(p.length) <= |flash|
    ensures Programmed(io, flash, stage, BlocksOf(p.length)) && Genuine(io, stage, p) ==> Chunks(flash, p.length) == p.image
  {
    if Programmed(io, flash, stage, BlocksOf(p.length)) && Genuine(io, stage, p) {
      var c := Contents(io, stage, BlocksOf(p.length));
      assert forall k :: 0 <= k < BlocksOf(p.length) ==> c[k] == flash[k];
      assert Chunks(flash, p.length) == Chunks(c, p.length);
    }
  }

  lemma OneChunk(io: Config, stage: seq<Block>, length: nat, n: nat, data: Block)
    requires n < BlocksOf(length) && Content(io, stage, n) == Some(data)
    ensures var c := Chunks(Contents(io, stage, BlocksOf(length)), length); c[..n + 1] == c[..n] + [data[..Take(length, n)]]
  {}

  // ---- starting an update ---------------------------------------------------------------

  /** The record describes p as the update under way. */
  predicate InstallRecord(p: Package, r: Record) {
    r.pkgVersion == p.version && r.pkgLength == p.length && r.pkgMin == p.minVersion && r.pkgImage == p.image
  }

  predicate SameInstalled(r: Record, r': Record) {
    && r'.token == r.token && r'.minV5f == r.minV5f
    && r'.v5fVersion == r.v5fVersion && r'.v5fLength == r.v5fLength && r'.v5fMac == r.v5fMac
  }

  /** While the card is written the flash is the image to keep, or else the card isn't touched. */
  lemma BackingUpKeeps(io: Config, m: Media, m': Media, r: Record, r': Record)
    requires |m.flash| == SPAN_BLOCKS && r.v5fLength <= APP_SPAN
    requires m' == m.(card := m'.card) && SameInstalled(r, r')
    requires r.state == Idle || r.state == BackingUp
    requires r'.state == Idle || r'.state == BackingUp
    requires (r.v5fLength != 0 && InstalledOk(io, m, r)) || (SameBackup(r, r') && m' == m)
    ensures InstalledOk(io, m', r') == InstalledOk(io, m, r)
    ensures Recoverable(io, m, r) == Recoverable(io, m', r')
  {
    if SameBackup(r, r') { SameBackupAccepted(io, m.card, r, r'); }
  }

  /** Once the backup is made, what the flash held is on the card. */
  lemma BackupDoneKeeps(io: Config, m: Media, m': Media, r: Record, r': Record)
    requires |m.flash| == SPAN_BLOCKS && r.v5fLength <= APP_SPAN && (r.v5fLength != 0 ==> r.v5fVersion >= r.minV5f)
    requires m' == m.(card := m'.card) && SameInstalled(r, r')
    requires (r.state == Idle || r.state == BackingUp) && r'.state == Installing
    requires if r.v5fLength != 0 && InstalledOk(io, m, r)
             then BackedUp(io, m', r')
             else SameBackup(r, r') && m' == m
    ensures Recoverable(io, m, r).Some? ==> Recoverable(io, m', r') == Recoverable(io, m, r)
  {
    if r.v5fLength != 0 && InstalledOk(io, m, r) {
      assert FlashImage(io, m', r') == FlashImage(io, m, r);
    } else {
      SameBackupAccepted(io, m.card, r, r');
    }
  }

  /** The state of the update is no part of what the boot check looks at. */
  lemma InstalledOkState(io: Config, m: Media, r: Record, r': Record)
    requires |m.flash| == SPAN_BLOCKS && r.v5fLength <= APP_SPAN && SameInstalled(r, r')
    ensures InstalledOk(io, m, r') == InstalledOk(io, m, r)
  {}

  lemma StillInstalled(io: Config, m: Media, r: Record, r': Record)
    requires |m.flash| == SPAN_BLOCKS && r.v5fLength <= APP_SPAN
    requires SameInstalled(r, r') && SameBackup(r, r')
    requires (r.state == Idle || r.state == BackingUp) && (r'.state == Idle || r'.state == BackingUp)
    ensures Recoverable(io, m, r) == Recoverable(io, m, r')
  {
    SameBackupAccepted(io, m.card, r, r');
  }

  /** What a boot that started an update leaves: progress that a resume can trust, or the package's image. */
  ghost predicate UpdateStepOk(io: Config, stage: seq<Block>, m: Media, r: Record)
    requires |m.flash| == SPAN_BLOCKS
  {
    && (r.state == Installing || r.state == Trial ==>
          Named(io, stage, r) && Genuine(io, stage, io.parse(stage[0]).value) && BlocksOf(r.pkgLength) <= SPAN_BLOCKS)
    && (r.state == Installing ==>
          r.progress <= SPAN_BLOCKS && Programmed(io, m.flash, stage, r.progress))
    && (r.state == Trial ==>
          && r.progress == 0 && Chunks(m.flash, r.pkgLength) == r.pkgImage && OnTrial(io, r)
          && Programmed(io, m.flash, stage, BlocksOf(r.pkgLength)))
  }

  /** The image on trial is the package's version, and as long as the package's or the whole span. */
  predicate OnTrial(io: Config, r: Record) {
    r.v5fVersion == r.pkgVersion && r.v5fLength == if io.checkPages then APP_SPAN else r.pkgLength
  }

  /** The installed image is worth keeping, and the card's file has fewer bytes than it and the blocks around it need. */
  predicate NoRoom(io: Config, m: Media, r: Record)
    requires |m.flash| == SPAN_BLOCKS && r.v5fLength <= APP_SPAN
  {
    && r.v5fLength != 0 && InstalledOk(io, m, r)
    && io.backupBlocks * BLOCK < BLOCK + r.v5fLength + (if io.checkSignature then BLOCK else 0)
  }

  /** The board takes the staged package: it's good, and so is the room for a backup. */
  ghost predicate Takes(io: Config, stage: seq<Block>, m: Media, r: Record)
    requires |m.flash| == SPAN_BLOCKS && r.v5fLength <= APP_SPAN
  {
    Mounts(io, stage, r.minV5f) && Sincere(io, stage) && !NoRoom(io, m, r)
  }

  // ---- boots ------------------------------------------------------------------------------

  /** How far an update can get in one boot, cut anywhere. */
  ghost predicate ProgressOk(io: Config, stage: seq<Block>, m: Media, r: Record, m': Media, r': Record)
    requires |m.flash| == |m'.flash| == SPAN_BLOCKS
  {
    && (r'.state == Trial ==>
          if r.state == Trial
          then m' == m && SameInstalled(r, r') && r.progress <= r'.progress <= r.progress + 1
          else r'.progress == 0)
    && (ResumesFrom(io, stage, m, r) ==> ResumesFrom(io, stage, m', r'))
    && (r.state == Installing && r'.state == Installing ==> Forward(m, r, m', r'))
    && (r'.state == BackingUp && m'.card != m.card ==> r'.backupLength == 0)
    && (r'.state == Installing ==>
          if r.state == Installing then SamePackage(r, r')
          else Named(io, stage, r') && Genuine(io, stage, io.parse(stage[0]).value))
    && (r.state != Trial && r'.state == Trial ==>
          && Named(io, stage, r') && BlocksOf(r'.pkgLength) <= SPAN_BLOCKS
          && Chunks(m'.flash, r'.pkgLength) == r'.pkgImage && OnTrial(io, r')
          && (r.state == Installing ==> SamePackage(r, r')))
    && (r.state != Trial && r'.state == Trial && ResumesFrom(io, stage, m, r) ==>
          BlocksOf(r'.pkgLength) <= SPAN_BLOCKS && Programmed(io, m'.flash, stage, BlocksOf(r'.pkgLength)))
  }

  /** Nothing is lost but the work on one sector: stored progress only grows, and past the sector after it nothing is touched. */
  ghost predicate Forward(m: Media, r: Record, m': Media, r': Record)
    requires |m.flash| == |m'.flash|
  {
    r.progress <= r'.progress && forall k :: r'.progress + SECTOR_BLOCKS <= k < |m.flash| ==> m'.flash[k] == m.flash[k]
  }

  lemma {:induction false} ForwardMore(m0: Media, r0: Record, m: Media, r: Record, m': Media, r': Record, blk: nat)
    requires |m0.flash| == |m.flash| == |m'.flash| && Forward(m0, r0, m, r)
    requires r.progress == blk - blk % SECTOR_BLOCKS && (r'.progress == r.progress || r'.progress == blk + 1)
    requires forall k :: blk + SECTOR_BLOCKS - blk % SECTOR_BLOCKS <= k < |m.flash| ==> m'.flash[k] == m.flash[k]
    ensures Forward(m0, r0, m', r')
  {}

  lemma {:induction false} ForwardSelf(m: Media, r: Record)
    ensures Forward(m, r, m, r)
  {}

  /** The same update is under way. */
  predicate SamePackage(r: Record, r': Record) {
    && r'.pkgVersion == r.pkgVersion && r'.pkgLength == r.pkgLength && r'.pkgMin == r.pkgMin && r'.pkgImage == r.pkgImage
    && r'.minV5f == r.minV5f
  }

  /** If the record says INSTALLING, the blocks before its progress are the staged package's. */
  ghost predicate ResumesFrom(io: Config, stage: seq<Block>, m: Media, r: Record) {
    r.state == Installing ==> r.progress <= |m.flash| && Programmed(io, m.flash, stage, r.progress)
  }

  /** What a boot that nothing disturbs comes to, state by state. */
  ghost predicate Outcomes(io: Config, stage: seq<Block>, waiting: bool, m: Media, r: Record, err: Err, m': Media, r': Record)
    requires |m.flash| == |m'.flash| == SPAN_BLOCKS && r.v5fLength <= APP_SPAN
  {
    match r.state
    case Idle =>
      if waiting then UpdateOutcome(io, stage, m, r, err, m', r') else err == NoError && m' == m && r' == r
    case BackingUp => UpdateOutcome(io, stage, m, r, err, m', r')
    case Installing =>
      && err == NoError && (r'.state == Trial || GaveUp(io, m, r, m', r'))
      && (ResumesFrom(io, stage, m, r) && Installable(io, stage, r) ==> r'.state == Trial)
    case Trial =>
      && err == NoError && (r'.state == Trial <==> r.progress < TRIAL_BOOTS)
      && (r.progress == TRIAL_BOOTS && BackupAccepted(io, m.card, r) ==> r'.v5fLength != 0)
    case RollingBack =>
      && err == NoError && r'.state == Idle
      && (BackupGood(io, m.card, r) && r.backupVersion >= r.minV5f <==> r'.result == RolledBack)
      && (r'.result == RolledBack ==>
            r'.v5fLength <= APP_SPAN && FlashImage(io, m', r') == BackupImage(io, m.card, r))
  }

  /** The image that was installed is back, or if there was none to keep what GaveUp says. */
  ghost predicate UpdateGivenUp(io: Config, m: Media, r: Record, m': Media, r': Record)
    requires |m.flash| == |m'.flash| == SPAN_BLOCKS && r.v5fLength <= APP_SPAN
  {
    if r.v5fLength != 0 && InstalledOk(io, m, r) then
      r'.state == Idle && r'.result == RolledBack && r'.v5fLength <= APP_SPAN && FlashImage(io, m', r') == FlashImage(io, m, r)
    else GaveUp(io, m, r, m', r')
  }

  /** Given up after the backup was made, or with the backup there was. */
  lemma GivenUp(io: Config, m: Media, r: Record, m1: Media, r1: Record, m': Media, r': Record)
    requires |m.flash| == |m'.flash| == SPAN_BLOCKS && r.v5fLength <= APP_SPAN && (r.v5fLength != 0 ==> r.v5fVersion >= r.minV5f)
    requires m1 == m.(card := m1.card) && SameInstalled(r, r1)
    requires if r.v5fLength != 0 && InstalledOk(io, m, r) then BackedUp(io, m1, r1) else m1 == m && SameBackup(r, r1)
    requires GaveUp(io, m1, r1, m', r')
    ensures UpdateGivenUp(io, m, r, m', r')
  {
    if r.v5fLength != 0 && InstalledOk(io, m, r) {
      assert FlashImage(io, m1, r1) == FlashImage(io, m, r);
    } else {
      GaveUpSame(io, m, r, m1, r1, m', r');
    }
  }

  ghost predicate UpdateOutcome(io: Config, stage: seq<Block>, m: Media, r: Record, err: Err, m': Media, r': Record)
    requires |m.flash| == |m'.flash| == SPAN_BLOCKS && r.v5fLength <= APP_SPAN
  {
    && err == NoError
    && (Takes(io, stage, m, r) ==> r'.state == Trial && InstallRecord(io.parse(stage[0]).value, r'))
    && (if !(Mounts(io, stage, r.minV5f) && Genuine(io, stage, io.parse(stage[0]).value)) then
          m' == m && r' == r.(seqno := r'.seqno, state := Idle, result := Refused)
        else if NoRoom(io, m, r) then
          m' == m && r' == r.(seqno := r'.seqno, state := Idle, result := NoBackup)
        else
          r'.state == Trial || UpdateGivenUp(io, m, r, m', r'))
  }

  /** An image upd_boot starts passes the boot check and is no older than the minimum. */
  ghost predicate VerdictOk(io: Config, m: Media, r: Record, v: Verdict)
    requires |m.flash| == SPAN_BLOCKS && r.v5fLength <= APP_SPAN
  {
    && (v.Start? ==> r.v5fLength != 0 && InstalledOk(io, m, r) && r.v5fVersion >= r.minV5f
                     && (r.state == Idle || r.state == Trial))
    && (v.Recovery? ==> r.v5fLength == 0)
  }

  /** With no good image installed, giving it up loses nothing. */
  lemma NotInstalledKeeps(io: Config, m: Media, r: Record, r': Record)
    requires |m.flash| == SPAN_BLOCKS && r.v5fLength <= APP_SPAN && r'.v5fLength <= APP_SPAN
    requires SameBackup(r, r')
    requires r.v5fLength == 0 || (r.state == Idle && !InstalledOk(io, m, r))
    requires r' == r || r'.state == RollingBack || r'.v5fLength == 0
    ensures Recoverable(io, m, r') == Recoverable(io, m, r)
  {
    SameBackupAccepted(io, m.card, r, r');
  }

  /** Without an image or a package a boot has nothing to do. */
  predicate NothingToDo(r: Record, waiting: bool) {
    r.state == Idle && r.v5fLength == 0 && !waiting
  }

  /**
   * One boot, cut anywhere: what was recoverable still is, the minimum stays,
   * and progress is what ProgressOk says. If only the power fails, neither an
   * image that is there to go back to is given up nor a good package. A boot of
   * an image on trial that gets as far as starting it has counted itself first,
   * and one with nothing to do changes nothing.
   */
  ghost predicate BootStep(io: Config, stage: seq<Block>, waiting: bool, steady: bool, m: Media, r: Record, m': Media, r': Record, v: Verdict)
    requires |m.flash| == |m'.flash| == SPAN_BLOCKS && r.v5fLength <= APP_SPAN && r'.v5fLength <= APP_SPAN
  {
    && (Recoverable(io, m, r).Some? ==> Recoverable(io, m', r') == Recoverable(io, m, r))
    && r'.minV5f == r.minV5f
    && (steady && !Stranded(io, m, r) ==> !Stranded(io, m', r'))
    && (steady && r.state == Installing && ResumesFrom(io, stage, m, r) && Installable(io, stage, r) ==>
          r'.state == Installing || r'.state == Trial)
    && ProgressOk(io, stage, m, r, m', r')
    && VerdictOk(io, m', r', v)
    && (v.Start? && r.state == Trial && r'.state == Trial ==> r'.progress == r.progress + 1)
    && (NothingToDo(r, waiting) ==> !v.Start? && m' == m && r' == r)
  }

  /** One confirm, cut anywhere: nothing, or the image on trial becomes the one to keep. */
  ghost predicate ConfirmStep(io: Config, m: Media, r: Record, r': Record)
    requires |m.flash| == SPAN_BLOCKS && r.v5fLength <= APP_SPAN && r'.v5fLength <= APP_SPAN
  {
    r' == r ||
    (&& r.state == Trial && r'.state == Idle
     && r'.minV5f == (if r.pkgMin > r.minV5f then r.pkgMin else r.minV5f)
     && r'.v5fLength != 0 && Recoverable(io, m, r') == Some(FlashImage(io, m, r)))
  }

  lemma ConfirmedIsInstalled(io: Config, m: Media, r: Record, r': Record)
    requires Shape(io, m) && RecordOk(io, m, r) && r.state == Trial
    requires r'.state == Idle && r'.minV5f == (if r.pkgMin > r.minV5f then r.pkgMin else r.minV5f)
    requires r' == r.(seqno := r'.seqno, state := Idle, progress := 0, result := r'.result, minV5f := r'.minV5f)
    ensures Recoverable(io, m, r') == Some(FlashImage(io, m, r))
  {}

  /** A boot that nothing disturbs finishes what was under way. */
  ghost predicate BootOutcome(io: Config, stage: seq<Block>, waiting: bool,
                              m: Media, r: Record, m': Media, r': Record, v: Verdict)
    requires |m.flash| == |m'.flash| == SPAN_BLOCKS && r.v5fLength <= APP_SPAN && r'.v5fLength <= APP_SPAN
  {
    && (r.state == Idle && !waiting && r.v5fLength != 0 && InstalledOk(io, m, r) ==>
          v.Start? && m' == m && r' == r)
    && (r.state == Idle && !waiting && r.v5fLength != 0 && Recoverable(io, m, r).Some? ==> v.Start?)
    && ((r.state == Idle && waiting) || r.state == BackingUp ==>
          Takes(io, stage, m, r) ==>
            v.Start? && r'.state == Trial && InstallRecord(io.parse(stage[0]).value, r'))
    && (r.state == Installing && ResumesFrom(io, stage, m, r) && Installable(io, stage, r) ==>
          v.Start? && r'.state == Trial)
    && (NothingToDo(r, waiting) ==> v.Recovery?)
    && (r.state == Installing && !Named(io, stage, r) ==> r'.state != Trial)
    && (r.state == Installing && r'.state != Trial && BackupAccepted(io, m.card, r) ==>
          v.Start? && r'.state == Idle && FlashImage(io, m', r') == BackupImage(io, m.card, r))
    && (Recoverable(io, m, r).Some? && !Stranded(io, m, r) ==> v.Start?)
    && (r.state == Trial && r.progress < TRIAL_BOOTS ==> v.Start? && r'.state == Trial)
    && (r.state == Trial && r.progress == TRIAL_BOOTS ==> r'.state != Trial)
    && (r.state == RollingBack || (r.state == Trial && r.progress == TRIAL_BOOTS) ==>
          BackupAccepted(io, m.card, r) ==>
            v.Start? && r'.state == Idle && FlashImage(io, m', r') == BackupImage(io, m.card, r))
  }

  /** Nothing installed, no backup, no minimum, nothing under way. */
  function EmptyRecord(token: nat): (r: Record)
    ensures r.token == token && r.seqno == 1 && r.state == Idle && r.v5fLength == 0 && r.minV5f == 0 && r.backupLength == 0
  {
    Record(1, token, 0, 0, NoMac, 0, Idle, 0, 0, 0, 0, [], 0, 0, NoBackupMac, NoResult)
  }

  class Updater {
    const io: Config
    var m: Media
    var a: Option<Record>             // UPD_RECORD_A
    var b: Option<Record>             // UPD_RECORD_B
    var stage: seq<Block>             // lfstage.bin
    var rec: Record                   // upd_boot's record, in RAM
    var power: bool
    var reliable: bool                // no operation fails and the power stays on
    var cutsOnly: bool                // an operation fails only if the power goes
    ghost var live: Record            // the record a reset would find

    constructor (io: Config, m: Media, a: Option<Record>, b: Option<Record>, r: Record)
      ensures this.io == io && this.m == m && this.a == a && this.b == b && live == r
    {
      this.io, this.m, this.a, this.b := io, m, a, b;
      stage, rec, power, reliable, cutsOnly, live := [], r, true, false, false, r;
    }

    ghost predicate Valid()
      reads this
    {
      io.Valid() && Consistent(io, m, a, b, live)
    }

    /** The first boot after an erase: neither copy is valid. */
    ghost predicate BlankRecord()
      reads this
    {
      io.Valid() && Shape(io, m) && a.None? && b.None?
    }

    ghost predicate Synced()
      reads this
    {
      power && rec == live
    }

    // ---- the callbacks -----------------------------------------------------------

    /** Whether the operation about to be tried succeeds; the power may go instead. */
    method Attempt() returns (ok: bool)
      modifies `power
      ensures ok ==> power && old(power)
      ensures !old(power) ==> !power
      ensures reliable && old(power) ==> ok
      ensures cutsOnly && power ==> ok
    {
      ok := power;
      if power && !reliable {
        power := *;
        ok := *;
        ok := power && (ok || cutsOnly);
      }
    }

    method CardFailure() returns (err: Err)
      ensures err == CardError || err == BlockReadError
    {
      if * { err := CardError; } else { err := BlockReadError; }
    }

    method EraseSector(blk: nat) returns (err: Err)
      requires blk + 1 < |m.flash|
      modifies `m, `power
      ensures err == NoError || err == FlashError
      ensures m == old(m).(flash := m.flash) && |m.flash| == old(|m.flash|)
      ensures forall k :: 0 <= k < |m.flash| && k != blk && k != blk + 1 ==> m.flash[k] == old(m.flash[k])
      ensures err == NoError ==> power && old(power) && m.flash[blk] == m.flash[blk + 1] == Blank
      ensures (reliable && old(power)) || (cutsOnly && power) ==> err == NoError
      ensures !old(power) ==> !power && m == old(m)
    {
      var on := power;
      var ok := Attempt();
      if on {
        var x: Block, y: Block := *, *;
        m := m.(flash := if ok then m.flash[blk := Blank][blk + 1 := Blank]
                         else m.flash[blk := x][blk + 1 := y]);
      }
      err := if ok then NoError else FlashError;
    }

    method WriteBlock(blk: nat, data: Block) returns (err: Err)
      requires blk < |m.flash|
      modifies `m, `power
      ensures err == NoError || err == FlashError
      ensures m == old(m).(flash := m.flash) && |m.flash| == old(|m.flash|)
      ensures forall k :: 0 <= k < |m.flash| && k != blk ==> m.flash[k] == old(m.flash[k])
      ensures err == NoError ==> power && old(power) && m.flash[blk] == Overwrite(old(m.flash[blk]), data)
      ensures (reliable && old(power)) || (cutsOnly && power) ==> err == NoError
      ensures !old(power) ==> !power && m == old(m)
    {
      var on := power;
      var ok := Attempt();
      if on {
        var x: Block := *;
        if ok { x := Overwrite(m.flash[blk], data); }
        m := m.(flash := m.flash[blk := x]);
      }
      err := if ok then NoError else FlashError;
    }

    method ReadBlock(blk: nat) returns (err: Err, data: Block)
      requires blk < |m.flash|
      modifies `power
      ensures err == NoError || err == FlashError
      ensures err == NoError ==> power && old(power) && data == m.flash[blk]
      ensures (reliable && old(power)) || (cutsOnly && power) ==> err == NoError
      ensures !old(power) ==> !power
    {
      var ok := Attempt();
      data := m.flash[blk];
      err := if ok then NoError else FlashError;
    }

    /** flash_erase then flash_write at UPD_HEADER, read back (header_store). */
    method HeaderStore(data: Block) returns (err: Err)
      modifies `m, `power
      ensures err == NoError || err == FlashError
      ensures m == old(m).(header := m.header)
      ensures err == NoError ==> power && old(power) && m.header == data
      ensures (reliable && old(power)) || (cutsOnly && power) ==> err == NoError
      ensures !old(power) ==> !power && m == old(m)
    {
      var on := power;
      var ok := Attempt();
      if on {
        var x: Block := *;
        m := m.(header := if ok then Blank else x);
      }
      on := power;
      if ok {
        ok := Attempt();
        if on {
          var x: Block := *;
          m := m.(header := if ok then data else x);
        }
      }
      if ok {
        var err1, back := ReadHeader();
        ok := err1 == NoError && back == data;
      }
      err := if ok then NoError else FlashError;
    }

    method ReadHeader() returns (err: Err, data: Block)
      modifies `power
      ensures err == NoError || err == FlashError
      ensures err == NoError ==> power && old(power) && data == m.header
      ensures (reliable && old(power)) || (cutsOnly && power) ==> err == NoError
      ensures !old(power) ==> !power
    {
      var ok := Attempt();
      data := m.header;
      err := if ok then NoError else FlashError;
    }

    method BackupReadHead() returns (err: Err, head: Option<Head>)
      modifies `power
      ensures err == NoError || err == CardError || err == BlockReadError
      ensures err == NoError ==> power && old(power) && io.backupBlocks > 0 && head == m.card.head
      ensures reliable && old(power) ==> power && (io.backupBlocks > 0 ==> err == NoError)
      ensures cutsOnly && power && io.backupBlocks > 0 ==> err == NoError
      ensures !old(power) ==> !power
    {
      var ok := Attempt();
      head := m.card.head;
      if ok && io.backupBlocks > 0 { err := NoError; } else { err := CardFailure(); }
    }

    /** Block n of lfbackup.bin, n from 1. */
    method BackupRead(n: nat) returns (err: Err, data: Block)
      requires n > 0
      modifies `power
      ensures err == NoError || err == CardError || err == BlockReadError
      ensures err == NoError ==> power && old(power) && n <= |m.card.data| && data == m.card.data[n - 1]
      ensures reliable && old(power) ==> power && (n <= |m.card.data| ==> err == NoError)
      ensures cutsOnly && power && n <= |m.card.data| ==> err == NoError
      ensures !old(power) ==> !power
    {
      var ok := Attempt();
      data := if n <= |m.card.data| then m.card.data[n - 1] else Blank;
      if ok && n <= |m.card.data| { err := NoError; } else { err := CardFailure(); }
    }

    method BackupWriteHead(head: Head) returns (err: Err)
      modifies `m, `power
      ensures err == NoError || err == CardError || err == BlockReadError
      ensures m == old(m).(card := m.card) && m.card.data == old(m.card.data)
      ensures err == NoError ==> power && old(power) && m.card.head == Some(head)
      ensures reliable && old(power) ==> err == NoError
      ensures !old(power) ==> !power && m == old(m)
    {
      var on := power;
      var ok := Attempt();
      if on {
        var x: Option<Head> := *;
        m := m.(card := m.card.(head := if ok then Some(head) else x));
      }
      if ok { err := NoError; } else { err := CardFailure(); }
    }

    method BackupWrite(n: nat, data: Block) returns (err: Err)
      requires 0 < n <= |m.card.data|
      modifies `m, `power
      ensures err == NoError || err == CardError || err == BlockReadError
      ensures m == old(m).(card := m.card) && m.card.head == old(m.card.head)
      ensures |m.card.data| == old(|m.card.data|)
      ensures forall k :: 0 <= k < |m.card.data| && k != n - 1 ==> m.card.data[k] == old(m.card.data[k])
      ensures err == NoError ==> power && old(power) && m.card.data[n - 1] == data
      ensures reliable && old(power) ==> err == NoError
      ensures !old(power) ==> !power && m == old(m)
    {
      var on := power;
      var ok := Attempt();
      if on {
        var x: Block := *;
        if ok { x := data; }
        m := m.(card := m.card.(data := m.card.data[n - 1 := x]));
      }
      if ok { err := NoError; } else { err := CardFailure(); }
    }

    method StageRead(n: nat) returns (err: Err, data: Block)
      modifies `power
      ensures err == NoError || err == CardError || err == BlockReadError
      ensures err == NoError ==> power && old(power) && n < |stage| && data == stage[n]
      ensures reliable && old(power) ==> power
      ensures ((reliable && old(power)) || (cutsOnly && power)) && n < |stage| ==> err == NoError
      ensures !old(power) ==> !power
    {
      var ok := Attempt();
      data := if n < |stage| then stage[n] else Blank;
      if ok && n < |stage| { err := NoError; } else { err := CardFailure(); }
    }

    /** stage_read and sealed_open_block of content block n (from 0). */
    method ReadContent(n: nat) returns (err: Err, data: Block)
      requires |stage| > 0
      modifies `power
      ensures err == NoError || err == CardError || err == BlockReadError
      ensures err == NoError ==> power && old(power) && Content(io, stage, n) == Some(data)
      ensures reliable && old(power) ==> power
      ensures (reliable && old(power)) || (cutsOnly && power) ==> (err == NoError <==> Content(io, stage, n).Some?)
      ensures reliable && old(power) && n + 1 < |stage| ==> err == NoError || err == BlockReadError
      ensures !old(power) ==> !power
    {
      err, data := StageRead(n + 1);
      if err == NoError {
        var ok := Attempt();          // the hash table block, if it's another one
        match io.open(stage[0], n + 1, data) {
          case Some(plain) =>
            if ok { data := plain; } else { err := CardFailure(); }
          case None =>
            err := BlockReadError;
        }
      }
    }

    /** ctr_crypt_block under the token's card key. */
    method Crypt(nonce: nat, n: nat, data: Block) returns (err: Err, out: Block)
      modifies `power
      ensures err == NoError || err == BlockReadError
      ensures err == NoError ==> power && old(power) && out == io.ctr(rec.token, nonce, n, data)
      ensures reliable && old(power) ==> err == NoError
      ensures !old(power) ==> !power
    {
      var ok := Attempt();
      out := io.ctr(rec.token, nonce, n, data);
      err := if ok then NoError else BlockReadError;
    }

    // ---- the record ----------------------------------------------------------------

    method RecordLoad() returns (err: Err, found: bool)
      modifies `rec, `power
      ensures err == NoError || err == FlashError
      ensures err == NoError ==> power && old(power) && found == Load(a, b).Some?
      ensures err == NoError && found ==> Load(a, b) == Some(rec)
      ensures reliable && old(power) ==> err == NoError
      ensures !old(power) ==> !power
    {
      found := false;
      var ok := Attempt();
      if ok { ok := Attempt(); }
      if !ok { return FlashError, false; }
      if a.None? && b.None? { return NoError, false; }
      rec := if a.Some? && (b.None? || a.value.seqno >= b.value.seqno) then a.value else b.value;
      return NoError, true;
    }

    /** One copy erased, or half erased: never a valid record that wasn't there. */
    method EraseCopy(odd: bool) returns (ok: bool)
      modifies `a, `b, `power
      ensures ok ==> power && old(power)
      ensures if odd then a == old(a) && (b.None? || b == old(b)) else b == old(b) && (a.None? || a == old(a))
      ensures ok ==> if odd then b.None? else a.None?
      ensures (reliable && old(power)) || (cutsOnly && power) ==> ok
      ensures !old(power) ==> !power && a == old(a) && b == old(b)
    {
      var on := power;
      ok := Attempt();
      var spared: bool := *;
      if on && (ok || !spared) {
        if odd { b := None; } else { a := None; }
      }
    }

    /** One erased copy written, perhaps cut short: torn unless it was completed. */
    method WriteCopy(odd: bool, r: Record) returns (ok: bool)
      requires power ==> if odd then b.None? else a.None?
      modifies `a, `b, `power
      ensures ok ==> power && old(power)
      ensures if odd then a == old(a) && (b == old(b) || (old(power) && b == Some(r)))
              else b == old(b) && (a == old(a) || (old(power) && a == Some(r)))
      ensures ok ==> if odd then b == Some(r) else a == Some(r)
      ensures (reliable && old(power)) || (cutsOnly && power) ==> ok
      ensures !old(power) ==> !power
    {
      var on := power;
      ok := Attempt();
      var completed: bool := *;
      if on && (ok || completed) {
        if odd { b := Some(r); } else { a := Some(r); }
      }
    }

    /**
     * record_store: the copies act as one cell. However the store ends, a reset
     * finds the record that was there or, whole, the one being stored.
     */
    method RecordStore() returns (err: Err)
      requires power && !(a.None? && b.None?) ==> Holds(a, b, live) && rec.seqno == live.seqno
      modifies `a, `b, `live, `rec, `power
      ensures err == NoError || err == FlashError
      ensures rec == old(rec).(seqno := old(rec.seqno) + 1)
      ensures StoreCut(old(a), old(b), rec, a, b)
      ensures old(Holds(a, b, live)) ==> Holds(a, b, live) && (live == old(live) || live == rec)
      ensures old(a.None? && b.None?) ==> (a.None? && b.None?) || (Holds(a, b, live) && live == rec)
      ensures err == NoError ==> power && old(power) && Holds(a, b, live) && live == rec
      ensures (reliable && old(power)) || (cutsOnly && power) ==> err == NoError
      ensures !old(power) ==> !power && a == old(a) && b == old(b) && live == old(live)
    {
      rec := rec.(seqno := rec.seqno + 1);
      var odd := rec.seqno % 2 == 1;
      var ok := EraseCopy(odd);
      if ok {
        ok := WriteCopy(odd, rec);
        if (if odd then b == Some(rec) else a == Some(rec)) {
          live := rec;
        }
      }
      if ok {
        ok := Attempt();                  // read back
      }
      err := if ok then NoError else FlashError;
    }

    /** record_store where a record was loaded before, with what that keeps of the board. */
    method Save() returns (err: Err)
      requires Valid()
      requires power ==> rec.seqno == live.seqno && RecordOk(io, m, rec)
      modifies `a, `b, `live, `rec, `power
      ensures err == NoError || err == FlashError
      ensures Valid() && rec == old(rec).(seqno := old(rec.seqno) + 1)
      ensures live == old(live) || (old(power) && live == rec)
      ensures err == NoError ==> Synced()
      ensures (reliable && old(power)) || (cutsOnly && power) ==> err == NoError
      ensures !old(power) ==> !power && live == old(live)
    {
      err := RecordStore();
    }

    // ---- programming -----------------------------------------------------------------

    /** program_block: a sector is erased when its first block is programmed. */
    method ProgramBlock(blk: nat, data: Block) returns (err: Err)
      requires |m.flash| == SPAN_BLOCKS && blk < SPAN_BLOCKS
      modifies `m, `power
      ensures err == NoError || err == FlashError
      ensures m == old(m).(flash := m.flash) && |m.flash| == SPAN_BLOCKS
      ensures forall k :: 0 <= k < blk ==> m.flash[k] == old(m.flash[k])
      ensures forall k :: blk + 1 - blk % SECTOR_BLOCKS < k < SPAN_BLOCKS ==> m.flash[k] == old(m.flash[k])
      ensures err == NoError ==> power && old(power) && m.flash[blk] == data
      ensures err == NoError && blk % SECTOR_BLOCKS == 0 && blk + 1 < SPAN_BLOCKS ==> m.flash[blk + 1] == Blank
      ensures ((reliable && old(power)) || (cutsOnly && power)) && (blk % SECTOR_BLOCKS == 0 || old(m.flash[blk]) == Blank) ==>
                err == NoError
      ensures !old(power) ==> !power && m == old(m)
    {
      err := NoError;
      OverwriteBlank(data);
      if blk % SECTOR_BLOCKS == 0 {
        err := EraseSector(blk);
      }
      if err == NoError {
        err := WriteBlock(blk, data);
      }
      if err == NoError {
        var back: Block;
        err, back := ReadBlock(blk);
        if err == NoError && back != data {
          err := FlashError;
        }
      }
    }

    // ---- reading images ------------------------------------------------------------------

    /** The bytes image_mac and image_hash digest: `length` bytes of flash, block by block. */
    method ReadImage(length: nat) returns (err: Err, chunks: seq<Bytes>)
      requires BlocksOf(length) <= |m.flash|
      modifies `power
      ensures err == NoError || err == FlashError
      ensures err == NoError ==> power && old(power) && chunks == Chunks(m.flash, length)
      ensures (reliable && old(power)) || (cutsOnly && power) ==> err == NoError
      ensures !old(power) ==> !power
    {
      chunks := [];
      err := if power then NoError else FlashError;
      var n := 0;
      while n < BlocksOf(length) && err == NoError
        invariant n <= BlocksOf(length) && (err == NoError || err == FlashError)
        invariant err == NoError ==> power && old(power) && chunks == Chunks(m.flash, length)[..n]
        invariant (reliable && old(power)) || (cutsOnly && power) ==> err == NoError
        invariant !old(power) ==> !power
      {
        var data: Block;
        err, data := ReadBlock(n);
        chunks := chunks + [data[..Take(length, n)]];
        n := n + 1;
      }
    }

    /** installed_mac, for the record in RAM. */
    method ImageMac() returns (err: Err, mac: Mac)
      requires |m.flash| == SPAN_BLOCKS && rec.v5fLength <= APP_SPAN
      modifies `power
      ensures err == NoError || err == FlashError
      ensures err == NoError ==> power && old(power) && mac == InstalledMac(io, m.flash, rec)
      ensures reliable && old(power) ==> err == NoError
      ensures !old(power) ==> !power
    {
      var n := MacLength(io, rec.v5fLength);
      var chunks: seq<Bytes>;
      err, chunks := ReadImage(n);
      mac := Mac(rec.token, rec.v5fVersion, n, chunks);
    }

    /** signed_ok. */
    method SignedOk(version: nat, length: nat) returns (err: Err, ok: bool)
      requires |m.flash| == SPAN_BLOCKS && io.Valid()
      requires io.checkSignature && LengthOk(io, length)
      modifies `power
      ensures err == NoError || err == FlashError
      ensures err == NoError ==> power && old(power)
      ensures err == NoError ==>
                ok == SignedImage(io, Image(version, length, Chunks(m.flash, length), Some(m.header)), rec.minV5f)
      ensures (reliable && old(power)) || (cutsOnly && power) ==> err == NoError
      ensures !old(power) ==> !power
    {
      ok := false;
      var b0: Block;
      err, b0 := ReadHeader();
      if err != NoError || io.parse(b0).None? { return; }
      var p := io.parse(b0).value;
      if p.version < rec.minV5f || p.component != V5FApp || p.version != version
         || p.length != length || (p.hwRev != 0 && p.hwRev != io.hwRev) {
        return;
      }
      var chunks: seq<Bytes>;
      err, chunks := ReadImage(p.length);
      if err != NoError || chunks != p.image || p.mmode.None? { return; }
      var first: Block, second: Block;
      err, first := ReadBlock(MMODE_FIRST);
      if err == NoError { err, second := ReadBlock(MMODE_FIRST + 1); }
      if err != NoError { return; }
      assert length == APP_SPAN && chunks[MMODE_FIRST] == first && chunks[MMODE_FIRST + 1] == second;
      assert chunks[MMODE_FIRST..SLOT_BLOCKS] == [first, second];
      ok := p.mmode.value == [first, second];
    }

    /** installed_ok: the boot check of the record in RAM. */
    method InstalledCheck() returns (err: Err, ok: bool)
      requires |m.flash| == SPAN_BLOCKS && io.Valid() && LengthOk(io, rec.v5fLength)
      modifies `power
      ensures err == NoError || err == FlashError
      ensures err == NoError ==> power && old(power) && ok == InstalledOk(io, m, rec)
      ensures reliable && old(power) ==> err == NoError
      ensures !old(power) ==> !power
    {
      ok := false;
      var mac: Mac;
      err, mac := ImageMac();
      if err != NoError || mac != rec.v5fMac { return; }
      if io.checkSignature {
        err, ok := SignedOk(rec.v5fVersion, rec.v5fLength);
      } else {
        ok := true;
      }
    }

    // ---- the backup ---------------------------------------------------------------------

    /** backup_mac: the digest of the backup as it is on the card. */
    method BackupDigest(length: nat, headerBlocks: nat) returns (err: Err, mac: BackupMac)
      modifies `power
      ensures err != FlashError
      ensures err == NoError ==>
                && power && old(power) && io.backupBlocks > 0 && BlocksOf(length) + headerBlocks <= |m.card.data|
                && mac == match m.card.head
                          case Some(h) => BackupMac(rec.token, h, m.card.data[..BlocksOf(length) + headerBlocks])
                          case None => NoBackupMac
      ensures reliable && old(power) ==>
                power && (io.backupBlocks > 0 && BlocksOf(length) + headerBlocks <= |m.card.data| ==> err == NoError)
      ensures cutsOnly && power && io.backupBlocks > 0 && BlocksOf(length) + headerBlocks <= |m.card.data| ==> err == NoError
      ensures !old(power) ==> !power
    {
      var total := BlocksOf(length) + headerBlocks;
      var data: seq<Block> := [];
      var head: Option<Head>;
      err, head := BackupReadHead();
      var n := 1;
      while n <= total && err == NoError
        invariant 1 <= n <= total + 1 && err != FlashError
        invariant err == NoError ==>
                    power && old(power) && n - 1 <= |m.card.data| && data == m.card.data[..n - 1] && head == m.card.head
        invariant err == NoError ==> io.backupBlocks > 0
        invariant reliable && old(power) ==> power && (io.backupBlocks > 0 && total <= |m.card.data| ==> err == NoError)
        invariant cutsOnly && power && io.backupBlocks > 0 && total <= |m.card.data| ==> err == NoError
        invariant !old(power) ==> !power
      {
        var x: Block;
        err, x := BackupRead(n);
        data := data + [x];
        n := n + 1;
      }
      mac := match head case Some(h) => BackupMac(rec.token, h, data) case None => NoBackupMac;
    }

    /** backup_good, for the record in RAM. A card that can't be read holds no good backup. */
    method BackupCheck() returns (good: bool, nonce: nat)
      requires Shape(io, m)
      modifies `power
      ensures good ==> power && old(power) && BackupGood(io, m.card, rec) && nonce == m.card.head.value.nonce
      ensures reliable && old(power) ==> power && good == BackupGood(io, m.card, rec)
      ensures cutsOnly && power ==> good == BackupGood(io, m.card, rec)
      ensures !old(power) ==> !power
    {
      good, nonce := false, 0;
      if rec.backupLength == 0 || (io.checkPages && rec.backupLength != APP_SPAN) {
        return;
      }
      var err, head := BackupReadHead();
      if err != NoError || head.None? || head.value.version != rec.backupVersion
         || head.value.length != rec.backupLength {
        return;
      }
      var hb := head.value.headerBlocks;
      if hb > 1 || (io.checkSignature && hb != 1) { return; }
      var mac: BackupMac;
      err, mac := BackupDigest(rec.backupLength, hb);
      good := err == NoError && mac == rec.backupMac;
      nonce := head.value.nonce;
    }

    // ---- the steps ------------------------------------------------------------------------

    /** What was recoverable at g still is, and the minimum and the card are as they were. */
    ghost predicate Kept(m0: Media, r0: Record)
      requires |m.flash| == SPAN_BLOCKS && live.v5fLength <= APP_SPAN
      requires |m0.flash| == SPAN_BLOCKS && r0.v5fLength <= APP_SPAN
      reads this
    {
      && (Recoverable(io, m0, r0).Some? ==> Recoverable(io, m, live) == Recoverable(io, m0, r0))
      && live.minV5f == r0.minV5f && live.token == r0.token
      && ((reliable || cutsOnly) && !Stranded(io, m0, r0) ==> !Stranded(io, m, live))
    }

    /** roll_back's loop: programs the backup's blocks, storing progress at each sector's end. */
    method RestoreBlocks(nonce: nat) returns (err: Err)
      requires Valid() && Synced() && rec.state == RollingBack
      requires BackupGood(io, m.card, rec) && nonce == rec.backupMac.head.nonce
      modifies `m, `a, `b, `live, `rec, `power
      ensures Valid() && m == old(m).(flash := m.flash)
      ensures live == old(live).(progress := live.progress, seqno := live.seqno)
      ensures err == NoError ==> Synced() && RestoredTo(io, m.flash, live, BlocksOf(live.backupLength))
      ensures Forward(old(m), old(live), m, live) && (err == NoError ==> live.progress == BlocksOf(live.backupLength))
      ensures reliable ==> err == NoError
    {
      hide SignedImage, BackupImage, FlashImage, Chunks, InstalledMac, Forward;
      ghost var r0 := live;
      ForwardSelf(m, r0);
      var blocks := BlocksOf(rec.backupLength);
      var blk := rec.progress;
      err := NoError;
      while blk < blocks && err == NoError
        invariant Valid() && m == old(m).(flash := m.flash)
        invariant live == r0.(progress := live.progress, seqno := live.seqno)
        invariant blk <= blocks && (err == NoError ==> live.progress <= blk)
        invariant Forward(old(m), r0, m, live)
        invariant err == NoError ==> live.progress == if blk < blocks then blk - blk % SECTOR_BLOCKS else blocks
        invariant err == NoError ==>
                    && Synced()
                    && RestoredTo(io, m.flash, r0, blk)
                    && (blk < blocks && blk % SECTOR_BLOCKS != 0 ==> m.flash[blk] == Blank)
        invariant reliable ==> err == NoError
        decreases blocks - blk, err == NoError
      {
        ghost var m1, r1 := m, live;
        err := RestoreStep(nonce, blk, blocks);
        ForwardMore(old(m), r0, m1, r1, m, live, blk);
        if err == NoError {
          blk := blk + 1;
        }
      }
    }

    /** One turn of the loop: a block, and at a sector's end the progress so far. */
    method RestoreStep(nonce: nat, blk: nat, blocks: nat) returns (err: Err)
      requires Valid() && Synced() && rec.state == RollingBack
      requires BackupGood(io, m.card, rec) && nonce == rec.backupMac.head.nonce
      requires live.progress <= blk < blocks == BlocksOf(rec.backupLength) && RestoredTo(io, m.flash, rec, blk)
      requires blk % SECTOR_BLOCKS != 0 ==> m.flash[blk] == Blank
      modifies `m, `a, `b, `live, `rec, `power
      ensures Valid() && m == old(m).(flash := m.flash)
      ensures live == old(live).(progress := live.progress, seqno := live.seqno)
      ensures live.progress == old(live.progress) || live.progress == blk + 1
      ensures err == NoError && ((blk + 1) % SECTOR_BLOCKS == 0 || blk + 1 == blocks) ==> live.progress == blk + 1
      ensures forall k :: blk + SECTOR_BLOCKS - blk % SECTOR_BLOCKS <= k < SPAN_BLOCKS ==> m.flash[k] == old(m.flash[k])
      ensures err == NoError ==> Synced() && live.progress <= blk + 1 && RestoredTo(io, m.flash, live, blk + 1)
      ensures err == NoError && (blk + 1) % SECTOR_BLOCKS != 0 && blk + 1 < blocks ==> m.flash[blk + 1] == Blank
      ensures reliable ==> err == NoError
    {
      hide SignedImage, BackupImage, FlashImage, Chunks, InstalledMac;
      err := RestoreBlock(nonce, blk);
      if err == NoError && SectorDone(blk, blocks) {
        rec := rec.(progress := blk + 1);
        err := Save();
      }
    }

    /** One block read from the card, decrypted and programmed. */
    method RestoreBlock(nonce: nat, blk: nat) returns (err: Err)
      requires Shape(io, m) && BackupGood(io, m.card, rec) && nonce == rec.backupMac.head.nonce
      requires power && blk < BlocksOf(rec.backupLength) <= SPAN_BLOCKS
      requires RestoredTo(io, m.flash, rec, blk)
      requires blk % SECTOR_BLOCKS != 0 ==> m.flash[blk] == Blank
      modifies `m, `power
      ensures m == old(m).(flash := m.flash) && |m.flash| == SPAN_BLOCKS
      ensures forall k :: blk + SECTOR_BLOCKS - blk % SECTOR_BLOCKS <= k < SPAN_BLOCKS ==> m.flash[k] == old(m.flash[k])
      ensures RestoredTo(io, m.flash, rec, blk)
      ensures err == NoError ==> power && RestoredTo(io, m.flash, rec, blk + 1)
      ensures err == NoError && blk % SECTOR_BLOCKS == 0 && blk + 1 < SPAN_BLOCKS ==> m.flash[blk + 1] == Blank
      ensures reliable ==> err == NoError
    {
      var data: Block;
      err, data := BackupRead(blk + 1);
      if err == NoError {
        err, data := Crypt(nonce, blk + 1, data);
      }
      if err == NoError {
        err := ProgramBlock(blk, data);
      }
    }

    /** roll_back's end: the header block, the MAC of what was restored, and the record. */
    method FinishRollBack() returns (err: Err)
      requires Valid() && Synced() && rec.state == RollingBack
      requires BackupGood(io, m.card, rec) && rec.backupVersion >= rec.minV5f
      requires RestoredTo(io, m.flash, rec, BlocksOf(rec.backupLength))
      modifies `m, `a, `b, `live, `rec, `power
      ensures Valid() && m == old(m).(header := m.header)
      ensures err == NoError ==> Synced() && live.state == Idle
      ensures live != old(live) ==>
                && RolledBackRecord(old(live), live)
                && FlashImage(io, m, live) == BackupImage(io, m.card, old(live))
                && live.v5fMac == InstalledMac(io, m.flash, live)
      ensures reliable ==> err == NoError
    {
      ghost var r0 := live;
      err := NoError;
      if io.checkSignature {
        var data: Block;
        err, data := BackupRead(BlocksOf(rec.backupLength) + 1);
        if err == NoError {
          err := HeaderStore(data);
        }
      }
      if err != NoError { return; }
      rec := rec.(v5fVersion := rec.backupVersion, v5fLength := rec.backupLength);
      RestoredIsBackup(io, m, r0, rec);
      var mac: Mac;
      err, mac := ImageMac();
      if err != NoError { return; }
      rec := rec.(v5fMac := mac, state := Idle, progress := 0, result := RolledBack);
      err := Save();
    }

    /**
     * roll_back, when it finds the backup missing, damaged or too old: no image is
     * left. If it found that only because a read failed, the board is stranded.
     */
    method NoWayBack() returns (err: Err)
      requires Valid() && live.state == RollingBack && (power ==> rec == live)
      modifies `a, `b, `live, `rec, `power
      ensures Valid() && m == old(m)
      ensures live == old(live) || (old(power) && live == old(live).(seqno := live.seqno, state := Idle, result := Broken, v5fLength := 0))
      ensures err == NoError ==> Synced() && live.state == Idle
      ensures Recoverable(io, m, live) == Recoverable(io, m, old(live))
      ensures live.state == Idle ==> (Stranded(io, m, live) <==> BackupAccepted(io, m.card, old(live)))
      ensures reliable && old(power) ==> err == NoError
    {
      ghost var r0 := live;
      rec := rec.(state := Idle, result := Broken, v5fLength := 0);
      err := Save();
      if live != r0 {
        StillBackedUp(io, m, m, r0, live);
        SameBackupAccepted(io, m.card, r0, live);
      }
    }

    /** roll_back: restores the backup from block rec.progress on. */
    method RollBack() returns (err: Err)
      requires Valid() && Synced() && rec.state == RollingBack
      modifies `m, `a, `b, `live, `rec, `power
      ensures Valid() && Kept(old(m), old(live)) && m.card == old(m.card)
      ensures SameBackup(old(live), live)
      ensures live.state == RollingBack || live.state == Idle
      ensures live.state == RollingBack ==> Forward(old(m), old(live), m, live)
      ensures err == NoError ==> Synced() && live.state == Idle
      ensures live.state == Idle ==> live.result == Broken || live.result == RolledBack
      ensures live.state == Idle ==> (live.result == Broken <==> live.v5fLength == 0)
      ensures live.state == Idle && live.result == RolledBack ==>
                && BackupGood(io, m.card, old(live)) && old(live).backupVersion >= live.minV5f
                && FlashImage(io, m, live) == BackupImage(io, m.card, old(live))
                && live.v5fMac == InstalledMac(io, m.flash, live)
      ensures reliable ==>
                && err == NoError
                && (live.result == RolledBack <==>
                      BackupGood(io, m.card, old(live)) && old(live).backupVersion >= live.minV5f)
    {
      hide BackupImage, InstalledMac, SignedImage, Chunks;
      ghost var r0, m0 := live, m;
      var good, nonce := BackupCheck();
      if !good || rec.backupVersion < rec.minV5f {
        err := NoWayBack();
        return;
      }
      err := RestoreBlocks(nonce);
      SameBackupAccepted(io, m.card, r0, live);
      if err == NoError {
        err := FinishRollBack();
      }
      if live.state == Idle {
        RolledBackKeeps(io, m0, m, r0, live);
      } else {
        StillBackedUp(io, m0, m, r0, live);
      }
    }

    /** make_backup's first loop: the image, padded with FF and encrypted, to blocks 1, 2, ... */
    method WriteBackup(nonce: nat, length: nat) returns (err: Err)
      requires Shape(io, m) && power && length <= APP_SPAN && BlocksOf(length) <= |m.card.data|
      modifies `m, `power
      ensures m == old(m).(card := m.card) && Shape(io, m) && m.card.head == old(m.card.head)
      ensures err == NoError ==> power && forall k :: 0 <= k < BlocksOf(length) ==>
                m.card.data[k] == io.ctr(rec.token, nonce, k + 1, Padded(m.flash[k], Take(length, k)))
      ensures reliable ==> err == NoError
    {
      err := NoError;
      var n := 0;
      while n < BlocksOf(length) && err == NoError
        invariant n <= BlocksOf(length)
        invariant m == old(m).(card := m.card) && Shape(io, m) && m.card.head == old(m.card.head)
        invariant err == NoError ==> power && forall k :: 0 <= k < n ==>
                    m.card.data[k] == io.ctr(rec.token, nonce, k + 1, Padded(m.flash[k], Take(length, k)))
        invariant reliable ==> err == NoError
      {
        var data: Block;
        err, data := ReadBlock(n);
        if err == NoError {
          err, data := Crypt(nonce, n + 1, Padded(data, Take(length, n)));
        }
        if err == NoError {
          err := BackupWrite(n + 1, data);
        }
        n := n + 1;
      }
    }

    /** make_backup's second loop: what is read back decrypts to the image. */
    method VerifyBackup(nonce: nat, length: nat) returns (err: Err)
      requires Shape(io, m) && power && length <= APP_SPAN && BlocksOf(length) <= |m.card.data|
      modifies `power
      ensures err == NoError ==> power && ReadsBack(io, m, rec.token, nonce, length)
      ensures reliable && ReadsBack(io, m, rec.token, nonce, length) ==> err == NoError
    {
      err := NoError;
      var n := 0;
      while n < BlocksOf(length) && err == NoError
        invariant n <= BlocksOf(length)
        invariant err == NoError ==> power && forall k :: 0 <= k < n ==>
                    BlockReadsBack(io, m, rec.token, nonce, length, k)
        invariant reliable && ReadsBack(io, m, rec.token, nonce, length) ==> err == NoError
      {
        var data: Block, flash: Block;
        err, data := BackupRead(n + 1);
        if err == NoError {
          err, data := Crypt(nonce, n + 1, data);
        }
        if err == NoError {
          err, flash := ReadBlock(n);
          assert err == NoError ==>
              (BlockReadsBack(io, m, rec.token, nonce, length, n) <==> data[..Take(length, n)] == flash[..Take(length, n)]);
          if err == NoError && data[..Take(length, n)] != flash[..Take(length, n)] {
            err := BlockReadError;
          }
        }
        n := n + 1;
      }
    }

    /** make_backup: copies the installed image to the card and checks the copy. */
    method MakeBackup() returns (err: Err)
      requires io.Valid() && Shape(io, m) && power && 0 < rec.v5fLength && LengthOk(io, rec.v5fLength)
      requires 1 + BlocksOf(rec.v5fLength) + HeaderBlocks(io) <= io.backupBlocks
      modifies `m, `rec, `power
      ensures m == old(m).(card := m.card) && Shape(io, m)
      ensures rec == old(rec).(backupVersion := rec.backupVersion, backupLength := rec.backupLength,
                               backupMac := rec.backupMac)
      ensures err == NoError ==> power && BackedUp(io, m, rec) && PaddedOut(io, rec)
      ensures reliable ==> err == NoError
    {
      hide PaddedOut;
      var length, blocks, hb := rec.v5fLength, BlocksOf(rec.v5fLength), HeaderBlocks(io);
      var ok := Attempt();                    // the RNG
      if !ok { return OtherError; }
      var nonce: nat := *;
      err := BackupWriteHead(Head(rec.v5fVersion, length, nonce, hb));
      if err != NoError { return; }
      err := WriteBackup(nonce, length);
      if err == NoError && io.checkSignature {
        var header: Block;
        err, header := ReadHeader();
        if err == NoError {
          err := BackupWrite(blocks + 1, header);
        }
      }
      if err != NoError { return; }
      PaddedReadsBack(io, m, rec.token, nonce, length);
      var mac: BackupMac;
      err, mac := BackupDigest(length, hb);
      if err != NoError { return; }
      rec := rec.(backupMac := mac);
      err := VerifyBackup(nonce, length);
      if err == NoError {
        rec := rec.(backupVersion := rec.v5fVersion, backupLength := length);
        BackupHoldsImage(io, m, rec);
        PaddingIs(io, m, rec);
      }
    }

    // ---- installing -------------------------------------------------------------------------

    /** mount_package; with checkAll, the whole package and its image's hash too. */
    method MountPackage(checkAll: bool) returns (err: Err, p: Package)
      requires io.Valid() && power
      modifies `power
      ensures err == NoError ==>
                && power && Mounts(io, stage, rec.minV5f) && p == io.parse(stage[0]).value
                && (checkAll ==> Genuine(io, stage, p))
      ensures err == NoError ==>
                && p.version >= rec.minV5f && (p.hwRev == 0 || p.hwRev == io.hwRev)
                && ((p.component == V5FApp && p.length == 425984)
                    || (p.component == V5F && 0 < p.length <= 163840 && !io.checkSignature))
      ensures reliable ==> power
      ensures reliable || (cutsOnly && power) ==>
                (err == NoError <==> Mounts(io, stage, rec.minV5f)
                                        && (checkAll ==> Genuine(io, stage, io.parse(stage[0]).value)))
    {
      var b0: Block;
      p := Package(Stage1, 0, 0, 0, 0, [], None);
      err, b0 := StageRead(0);
      if err != NoError { return; }
      if io.parse(b0).None? || io.parse(b0).value.version < rec.minV5f || !io.unwraps(b0, |stage|) {
        return ParseError, p;
      }
      p := io.parse(b0).value;
      if p.component == Stage1 || (p.hwRev != 0 && p.hwRev != io.hwRev)
         || (io.checkSignature && p.component != V5FApp)
         || (p.component == V5F && p.length > SLOT)
         || (p.component == V5FApp && p.length != APP_SPAN) {
        return ParseError, p;
      }
      if checkAll {
        err := CheckContent(p);
      }
    }

    /** mount_package's loop: every content block, and the image's hash. */
    method CheckContent(p: Package) returns (err: Err)
      requires |stage| > 0 && power
      modifies `power
      ensures err == NoError ==> power && Genuine(io, stage, p)
      ensures reliable ==> power
      ensures reliable || (cutsOnly && power) ==> (err == NoError <==> Genuine(io, stage, p))
    {
      hide Chunks;
      err := NoError;
      var chunks: seq<Bytes> := [];
      var n := 0;
      while n < BlocksOf(p.length) && err == NoError
        invariant n <= BlocksOf(p.length)
        invariant err == NoError ==>
                    && power && (forall k :: 0 <= k < n ==> Content(io, stage, k).Some?)
                    && chunks == Chunks(Contents(io, stage, BlocksOf(p.length)), p.length)[..n]
        invariant reliable ==> power
        invariant reliable || (cutsOnly && power) ==> err == NoError || !Genuine(io, stage, p)
      {
        var data: Block;
        err, data := ReadContent(n);
        if err == NoError { OneChunk(io, stage, p.length, n, data); }
        chunks := chunks + [data[..Take(p.length, n)]];
        n := n + 1;
      }
      if err == NoError && chunks != p.image {
        err := ParseError;
      }
    }

    /** install's loop: programs the package from block rec.progress on. */
    method InstallBlocks(p: Package) returns (err: Err)
      requires Valid() && Synced() && rec.state == Installing
      requires |stage| > 0 && BlocksOf(p.length) == BlocksOf(rec.pkgLength)
      modifies `m, `a, `b, `live, `rec, `power
      ensures Valid() && m == old(m).(flash := m.flash)
      ensures live == old(live).(progress := live.progress, seqno := live.seqno)
      ensures Forward(old(m), old(live), m, live) && (err == NoError ==> live.progress == BlocksOf(p.length))
      ensures err == NoError ==> Synced()
      ensures err == BlockReadError && power ==> rec == live
      ensures old(Programmed(io, m.flash, stage, live.progress)) ==>
                && Programmed(io, m.flash, stage, live.progress)
                && (err == NoError ==> Programmed(io, m.flash, stage, BlocksOf(p.length)))
      ensures (reliable || (cutsOnly && power)) && (forall k :: 0 <= k < BlocksOf(p.length) ==> Content(io, stage, k).Some?) ==> err == NoError
      ensures reliable && BlocksOf(p.length) < |stage| ==> power && (err == NoError || err == BlockReadError)
    {
      hide Chunks, InstalledMac, SignedImage, BackupGood, BackupImage, FlashImage, InstalledOk, Forward, Programmed, Genuine, Mounts, RestoredTo, Holds, Content;
      ghost var r0 := live;
      ForwardSelf(m, r0);
      ghost var ready := Programmed(io, m.flash, stage, live.progress);
      var blocks := BlocksOf(p.length);
      var blk := rec.progress;
      err := NoError;
      while blk < blocks && err == NoError
        invariant Valid() && m == old(m).(flash := m.flash)
        invariant live == r0.(progress := live.progress, seqno := live.seqno)
        invariant blk <= blocks && (err == NoError ==> live.progress <= blk && Synced())
        invariant Forward(old(m), r0, m, live)
        invariant err == NoError ==> live.progress == if blk < blocks then blk - blk % SECTOR_BLOCKS else blocks
        invariant err == BlockReadError && power ==> rec == live
        invariant ready ==> Programmed(io, m.flash, stage, live.progress)
        invariant err == NoError && ready ==> Programmed(io, m.flash, stage, blk)
        invariant err == NoError && blk < blocks && blk % SECTOR_BLOCKS != 0 ==> m.flash[blk] == Blank
        invariant (reliable || (cutsOnly && power)) && (forall k :: 0 <= k < blocks ==> Content(io, stage, k).Some?) ==> err == NoError
        invariant reliable && blocks < |stage| ==> power && (err == NoError || err == BlockReadError)
        decreases blocks - blk, err == NoError
      {
        ghost var m1, r1 := m, live;
        err := InstallStep(blk, blocks);
        ForwardMore(old(m), r0, m1, r1, m, live, blk);
        ProgrammedMore(io, stage, m1, r1, m, live, blk);
        if err == NoError {
          blk := blk + 1;
        }
      }
    }

    /** One turn of the loop: a block, and at a sector's end the progress so far. */
    method InstallStep(blk: nat, blocks: nat) returns (err: Err)
      requires Valid() && Synced() && rec.state == Installing && |stage| > 0
      requires live.progress <= blk < blocks == BlocksOf(rec.pkgLength)
      requires blk % SECTOR_BLOCKS != 0 ==> m.flash[blk] == Blank
      modifies `m, `a, `b, `live, `rec, `power
      ensures Valid() && m == old(m).(flash := m.flash)
      ensures live == old(live).(progress := live.progress, seqno := live.seqno)
      ensures live.progress == old(live.progress) || (live.progress == blk + 1 && Content(io, stage, blk) == Some(m.flash[blk]))
      ensures err == NoError && ((blk + 1) % SECTOR_BLOCKS == 0 || blk + 1 == blocks) ==> live.progress == blk + 1
      ensures forall k :: 0 <= k < blk ==> m.flash[k] == old(m.flash[k])
      ensures forall k :: blk + SECTOR_BLOCKS - blk % SECTOR_BLOCKS <= k < SPAN_BLOCKS ==> m.flash[k] == old(m.flash[k])
      ensures err == BlockReadError && power ==> rec == live
      ensures err == NoError ==> Synced() && Content(io, stage, blk) == Some(m.flash[blk])
      ensures err == NoError && (blk + 1) % SECTOR_BLOCKS != 0 && blk + 1 < blocks ==> m.flash[blk + 1] == Blank
      ensures (reliable || (cutsOnly && power)) && Content(io, stage, blk).Some? ==> err == NoError
      ensures reliable && blk + 1 < |stage| ==> power && (err == NoError || err == BlockReadError)
    {
      err := InstallBlock(blk);
      if err == NoError && SectorDone(blk, blocks) {
        rec := rec.(progress := blk + 1);
        err := Save();
      }
    }

    /** One block read from the package, checked and programmed. */
    method InstallBlock(blk: nat) returns (err: Err)
      requires Shape(io, m) && |stage| > 0 && power && blk < SPAN_BLOCKS
      requires blk % SECTOR_BLOCKS != 0 ==> m.flash[blk] == Blank
      modifies `m, `power
      ensures m == old(m).(flash := m.flash) && |m.flash| == SPAN_BLOCKS
      ensures forall k :: 0 <= k < blk ==> m.flash[k] == old(m.flash[k])
      ensures forall k :: blk + SECTOR_BLOCKS - blk % SECTOR_BLOCKS <= k < SPAN_BLOCKS ==> m.flash[k] == old(m.flash[k])
      ensures err == NoError ==> power && Content(io, stage, blk) == Some(m.flash[blk])
      ensures err == NoError && blk % SECTOR_BLOCKS == 0 && blk + 1 < SPAN_BLOCKS ==> m.flash[blk + 1] == Blank
      ensures (reliable || (cutsOnly && power)) && Content(io, stage, blk).Some? ==> err == NoError
      ensures reliable && blk + 1 < |stage| ==> power && (err == NoError || err == BlockReadError)
    {
      var data: Block;
      err, data := ReadContent(blk);
      if err == NoError {
        err := ProgramBlock(blk, data);
      }
    }

    /** install's checks: the image's hash, and with checkSignature its block 0 as the boot check sees it. */
    method CheckInstalled(p: Package) returns (err: Err)
      requires Valid() && Synced() && rec.state == Installing
      requires Mounts(io, stage, rec.minV5f) && p == io.parse(stage[0]).value
      modifies `m, `power
      ensures Valid() && m == old(m).(header := m.header)
      ensures err == NoError ==>
                && power && Chunks(m.flash, p.length) == p.image
                && (io.checkSignature ==> p.length == APP_SPAN)
                && (io.checkSignature ==>
                      SignedImage(io, Image(p.version, APP_SPAN, Chunks(m.flash, APP_SPAN), Some(m.header)), rec.minV5f))
      ensures (reliable || (cutsOnly && power)) && Chunks(m.flash, p.length) == p.image && (io.checkSignature ==> SignedPackage(io, p)) ==>
                err == NoError
      ensures reliable ==> power && (err == NoError || err == BlockReadError)
    {
      var chunks: seq<Bytes>;
      err, chunks := ReadImage(p.length);
      if err == NoError && chunks != p.image {
        err := BlockReadError;
      }
      if err == NoError && io.checkSignature {
        var b0: Block, ok: bool;
        err, b0 := StageRead(0);
        if err == NoError {
          err := HeaderStore(b0);
        }
        if err == NoError {
          err, ok := SignedOk(p.version, InstalledLength(io, p.length));
          if err == NoError && !ok {
            err := BlockReadError;
          }
        }
      }
    }

    /** install's end: the new image's record, on trial. */
    method StartTrial(p: Package) returns (err: Err)
      requires Valid() && Synced() && rec.state == Installing
      requires Mounts(io, stage, rec.minV5f) && p == io.parse(stage[0]).value && p.version == rec.pkgVersion
      requires io.checkSignature ==>
                 && p.length == APP_SPAN
                 && SignedImage(io, Image(p.version, APP_SPAN, Chunks(m.flash, APP_SPAN), Some(m.header)), rec.minV5f)
      modifies `a, `b, `live, `rec, `power
      ensures Valid()
      ensures err == NoError ==> Synced() && live != old(live)
      ensures live != old(live) ==> TrialRecord(io, p, old(live), live)
      ensures reliable ==> err == NoError
    {
      rec := rec.(v5fVersion := p.version, v5fLength := InstalledLength(io, p.length));
      var mac: Mac;
      err, mac := ImageMac();
      if err != NoError { return; }
      rec := rec.(v5fMac := mac, state := Trial, progress := 0);
      err := Save();
    }

    /** Back to the old image: install's two ways of giving up. */
    method GiveUp() returns (err: Err)
      requires Valid() && live.state == Installing && (power ==> rec == live)
      modifies `m, `a, `b, `live, `rec, `power
      ensures Valid() && Kept(old(m), old(live)) && m.card == old(m.card)
      ensures live.state == Idle || live.state == RollingBack || (live == old(live) && m == old(m))
      ensures err == NoError ==> Synced() && live.state == Idle
      ensures !old(power) ==> live == old(live) && err != NoError
      ensures reliable && old(power) ==> err == NoError && GaveUp(io, old(m), old(live), m, live)
    {
      hide Chunks, InstalledMac, SignedImage, BackupImage, FlashImage, InstalledOk, Restored;
      ghost var r0, m0 := live, m;
      rec := rec.(state := RollingBack, progress := 0);
      err := Save();
      StillBackedUp(io, m0, m, r0, live);
      if err == NoError {
        ghost var r1 := live;
        err := RollBack();
        GaveUpSame(io, m0, r0, m0, r1, m, live);
      }
    }

    /**
     * install. Resuming is exact: if the blocks before live.progress were the
     * package's, they still are, and an image put on trial is the package's.
     * Undisturbed, it ends with that image on trial or the old one put back.
     */
    method Install() returns (err: Err)
      requires Valid() && Synced() && rec.state == Installing
      modifies `m, `a, `b, `live, `rec, `power
      ensures Valid() && Kept(old(m), old(live)) && m.card == old(m.card)
      ensures InstallStepOk(io, stage, old(m), old(live), m, live)
      ensures err == NoError ==> Synced() && (live.state == Idle || live.state == Trial)
      ensures reliable ==> err == NoError && (live.state == Trial || GaveUp(io, old(m), old(live), m, live))
      ensures reliable && old(Programmed(io, m.flash, stage, live.progress)) && Installable(io, stage, old(live)) ==>
                live.state == Trial
      ensures cutsOnly && old(Programmed(io, m.flash, stage, live.progress)) && Installable(io, stage, old(live)) ==>
                live.state == Trial || live.state == Installing
    {
      hide BackupGood, BackupImage, FlashImage, Programmed, Genuine, GaveUp;
      var p: Package;
      err, p := MountPackage(false);
      if err != NoError || p.version != rec.pkgVersion || p.length != rec.pkgLength || p.image != rec.pkgImage {
        err := GiveUp();
      } else {
        err := InstallMounted(p);
      }
    }

    method InstallMounted(p: Package) returns (err: Err)
      requires Valid() && Synced() && rec.state == Installing
      requires Named(io, stage, live) && p == io.parse(stage[0]).value
      modifies `m, `a, `b, `live, `rec, `power
      ensures Valid() && Kept(old(m), old(live)) && m.card == old(m.card)
      ensures InstallStepOk(io, stage, old(m), old(live), m, live)
      ensures err == NoError ==> Synced() && (live.state == Idle || live.state == Trial)
      ensures reliable ==> err == NoError && (live.state == Trial || GaveUp(io, old(m), old(live), m, live))
      ensures reliable && old(Programmed(io, m.flash, stage, live.progress)) && Installable(io, stage, old(live)) ==>
                live.state == Trial
      ensures cutsOnly && old(Programmed(io, m.flash, stage, live.progress)) && Installable(io, stage, old(live)) ==>
                live.state == Trial || live.state == Installing
    {
      hide BackupGood, BackupImage, FlashImage, GaveUp, SignedImage, Chunks, InstalledMac, Genuine, Mounts, Programmed;
      ghost var r0, m0 := live, m;
      err := ProgramPackage(p);
      StillBackedUp(io, m0, m, r0, live);
      if err == BlockReadError {
        ghost var r1, m1 := live, m;
        err := GiveUp();
        GaveUpSame(io, m0, r0, m1, r1, m, live);
      } else if err == NoError {
        err := StartTrial(p);
        StillBackedUp(io, m0, m, r0, live);
      }
    }

    /** install's loop and the checks of what it programmed. */
    method ProgramPackage(p: Package) returns (err: Err)
      requires Valid() && Synced() && rec.state == Installing
      requires Named(io, stage, live) && p == io.parse(stage[0]).value
      modifies `m, `a, `b, `live, `rec, `power
      ensures Valid() && m.card == old(m.card)
      ensures live == old(live).(progress := live.progress, seqno := live.seqno) && Forward(old(m), old(live), m, live)
      ensures err == NoError ==>
                && Synced() && Chunks(m.flash, p.length) == p.image
                && (io.checkSignature ==> p.length == APP_SPAN)
                && (io.checkSignature ==>
                      SignedImage(io, Image(p.version, APP_SPAN, Chunks(m.flash, APP_SPAN), Some(m.header)), rec.minV5f))
      ensures err == BlockReadError && power ==> rec == live
      ensures old(Programmed(io, m.flash, stage, live.progress)) ==>
                && Programmed(io, m.flash, stage, live.progress)
                && (err == NoError ==> Programmed(io, m.flash, stage, BlocksOf(p.length)))
      ensures reliable ==> power && (err == NoError || err == BlockReadError)
      ensures (reliable || (cutsOnly && power)) && old(Programmed(io, m.flash, stage, live.progress)) && Sincere(io, stage) ==>
                err == NoError
    {
      hide SignedImage, Chunks, InstalledMac, BackupGood;
      err := InstallBlocks(p);
      if err == NoError {
        ProgrammedImage(io, m.flash, stage, p);
        err := CheckInstalled(p);
      }
    }

    /** start_update's first store: an update is under way, and a backup to be replaced is gone. */
    method Announce(p: Package, keep: bool) returns (err: Err)
      requires Valid() && power && rec == live.(state := Idle)
      requires live.state == Idle || live.state == BackingUp
      requires keep == (live.v5fLength != 0 && InstalledOk(io, m, live))
      modifies `a, `b, `live, `rec, `power
      ensures Valid() && (live == old(live) || live == rec)
      ensures live.state == Idle || live.state == BackingUp
      ensures SameInstalled(old(live), rec) && (!keep ==> SameBackup(old(live), rec))
      ensures InstallRecord(p, rec) && rec.state == BackingUp && rec.progress == 0 && (keep ==> rec.backupLength == 0)
      ensures err == NoError ==> Synced()
      ensures reliable ==> err == NoError
    {
      rec := rec.(pkgVersion := p.version, pkgLength := p.length, pkgMin := p.minVersion, pkgImage := p.image,
                  state := BackingUp, progress := 0, result := NoResult);
      if keep {
        rec := rec.(backupLength := 0);
      }
      err := Save();
    }

    /** start_update's end: the old image is backed up if it's worth keeping. */
    method Prepare(p: Package, keep: bool) returns (err: Err)
      requires Valid() && power && rec == live.(state := Idle)
      requires live.state == Idle || live.state == BackingUp
      requires Mounts(io, stage, live.minV5f) && p == io.parse(stage[0]).value
      requires keep == (live.v5fLength != 0 && InstalledOk(io, m, live))
      requires keep ==> 1 + BlocksOf(live.v5fLength) + HeaderBlocks(io) <= io.backupBlocks
      modifies `m, `a, `b, `live, `rec, `power
      ensures Valid() && Kept(old(m), old(live)) && m == old(m).(card := m.card)
      ensures !keep ==> m == old(m)
      ensures m.card != old(m.card) && live.state == BackingUp ==> live.backupLength == 0
      ensures live.state == Idle || live.state == BackingUp
              || (live.state == Installing && live.progress == 0 && InstallRecord(p, live))
      ensures err == NoError ==> Synced() && live.state == Installing && InstallRecord(p, live)
      ensures err == NoError ==> SameInstalled(old(live), live)
      ensures err == NoError ==> if keep then BackedUp(io, m, live) else SameBackup(old(live), live)
      ensures reliable ==> err == NoError
    {
      hide BackupGood, BackupImage, FlashImage, InstalledMac, SignedImage, BackedUp;
      ghost var r0, m0 := live, m;
      err := Announce(p, keep);
      ghost var r1 := live;
      if err == NoError && keep {
        err := MakeBackup();
      }
      BackingUpKeeps(io, m0, m, r0, r1);
      if err == NoError {
        err := BeginInstalling(keep, m0, r0);
      }
    }

    /** start_update's second store: the backup is made. */
    method BeginInstalling(keep: bool, ghost m0: Media, ghost r0: Record) returns (err: Err)
      requires Valid() && power && live.state == BackingUp && live.progress == 0
      requires rec == live.(backupVersion := rec.backupVersion, backupLength := rec.backupLength, backupMac := rec.backupMac)
      requires |m0.flash| == SPAN_BLOCKS && m == m0.(card := m.card) && RecordOk(io, m0, r0)
      requires r0.state == Idle || r0.state == BackingUp
      requires keep == (r0.v5fLength != 0 && InstalledOk(io, m0, r0)) && SameInstalled(r0, live)
      requires if keep then BackedUp(io, m, rec) else m == m0 && SameBackup(r0, rec)
      requires Recoverable(io, m, live) == Recoverable(io, m0, r0)
      requires live.pkgMin <= live.pkgVersion && BlocksOf(live.pkgLength) <= SPAN_BLOCKS
      modifies `a, `b, `live, `rec, `power
      ensures Valid() && Kept(m0, r0)
      ensures live == old(live) || live == old(rec).(seqno := live.seqno, state := Installing)
      ensures err == NoError ==> Synced() && live.state == Installing
      ensures err == NoError ==> if keep then BackedUp(io, m, live) else SameBackup(r0, live)
      ensures reliable ==> err == NoError
    {
      rec := rec.(state := Installing);
      err := Save();
      if live.state == Installing {
        BackupDoneKeeps(io, m0, m, r0, live);
      }
    }

    /** start_update: checks the package, then backs up and installs. */
    method StartUpdate() returns (err: Err)
      requires Valid() && power && rec == live.(state := Idle)
      requires live.state == Idle || live.state == BackingUp
      modifies `m, `a, `b, `live, `rec, `power
      ensures Valid() && Kept(old(m), old(live))
      ensures m.card != old(m.card) && live.state == BackingUp ==> live.backupLength == 0
      ensures UpdateStepOk(io, stage, m, live)
      ensures err == NoError ==> Synced() && (live.state == Idle || live.state == Trial)
      ensures reliable ==> UpdateOutcome(io, stage, old(m), old(live), err, m, live)
    {
      var p: Package;
      err, p := MountPackage(true);
      if err != NoError {
        err := Refuse(Refused);
      } else {
        err := UpdateTo(p);
      }
    }

    /** The rest of start_update, once the package checks out. */
    method UpdateTo(p: Package) returns (err: Err)
      requires Valid() && power && rec == live.(state := Idle)
      requires live.state == Idle || live.state == BackingUp
      requires Mounts(io, stage, live.minV5f) && p == io.parse(stage[0]).value && Genuine(io, stage, p)
      modifies `m, `a, `b, `live, `rec, `power
      ensures Valid() && Kept(old(m), old(live))
      ensures m.card != old(m.card) && live.state == BackingUp ==> live.backupLength == 0
      ensures UpdateStepOk(io, stage, m, live)
      ensures err == NoError ==> Synced() && (live.state == Idle || live.state == Trial)
      ensures reliable ==> UpdateOutcome(io, stage, old(m), old(live), err, m, live)
    {
      hide BackupGood, BackupImage, FlashImage, Genuine, Mounts, UpdateGivenUp, Chunks, SignedImage, InstalledMac;
      var keep := false;
      if rec.v5fLength != 0 {
        InstalledOkState(io, m, live, rec);
        err, keep := InstalledCheck();
        if err != NoError { return; }
      }
      if keep && io.backupBlocks < 1 + BlocksOf(rec.v5fLength) + HeaderBlocks(io) {
        err := Refuse(NoBackup);
      } else {
        err := BackUpAndInstall(p, keep);
      }
    }

    method BackUpAndInstall(p: Package, keep: bool) returns (err: Err)
      requires Valid() && power && rec == live.(state := Idle)
      requires live.state == Idle || live.state == BackingUp
      requires Mounts(io, stage, live.minV5f) && p == io.parse(stage[0]).value && Genuine(io, stage, p)
      requires keep == (live.v5fLength != 0 && InstalledOk(io, m, live))
      requires keep ==> 1 + BlocksOf(live.v5fLength) + HeaderBlocks(io) <= io.backupBlocks
      modifies `m, `a, `b, `live, `rec, `power
      ensures Valid() && Kept(old(m), old(live))
      ensures m.card != old(m.card) && live.state == BackingUp ==> live.backupLength == 0
      ensures UpdateStepOk(io, stage, m, live)
      ensures err == NoError ==> Synced() && (live.state == Idle || live.state == Trial)
      ensures reliable ==> err == NoError && (live.state == Trial || UpdateGivenUp(io, old(m), old(live), m, live))
      ensures reliable && Sincere(io, stage) ==> live.state == Trial && InstallRecord(p, live)
    {
      hide BackupGood, BackupImage, FlashImage, Genuine, InstalledOk, GaveUp, UpdateGivenUp, BackedUp;
      ghost var m0, r0 := m, live;
      err := Prepare(p, keep);
      if err == NoError {
        ghost var m1, r1 := m, live;
        err := Install();
        if GaveUp(io, m1, r1, m, live) { GivenUp(io, m0, r0, m1, r1, m, live); }
      }
    }

    /** Nothing is changed but the outcome. */
    method Refuse(why: Outcome) returns (err: Err)
      requires Valid() && rec == live.(state := Idle)
      requires live.state == Idle || live.state == BackingUp
      modifies `a, `b, `live, `rec, `power
      ensures Valid() && Kept(m, old(live)) && (live.state == Idle || live.state == BackingUp)
      ensures live == old(live) || live == old(live).(seqno := live.seqno, state := Idle, result := why)
      ensures err == NoError ==> Synced() && live.state == Idle && live.result == why
      ensures reliable && old(power) ==> err == NoError
    {
      ghost var r0 := live;
      rec := rec.(result := why);
      err := Save();
      StillInstalled(io, m, r0, live);
    }

    // ---- a boot ------------------------------------------------------------------------------

    /** UPD_TRIAL: one more boot without a confirm, or one too many. */
    method TrialBoot() returns (err: Err)
      requires Valid() && Synced() && live.state == Trial
      modifies `m, `a, `b, `live, `rec, `power
      ensures Valid() && Kept(old(m), old(live))
      ensures live.state == Trial || live.state == RollingBack || live.state == Idle
      ensures live.state == Trial ==>
                && (live == old(live) || live == old(live).(seqno := live.seqno, progress := old(live.progress) + 1))
                && m == old(m)
      ensures err == NoError ==> Synced() && (live.state == Trial ==> live.progress == old(live.progress) + 1)
      ensures err == NoError ==> live.state == Idle || live.state == Trial
      ensures reliable ==> err == NoError && (live.state == Trial <==> old(live.progress) < TRIAL_BOOTS)
      ensures reliable && live.state != Trial && BackupAccepted(io, old(m).card, old(live)) ==> live.v5fLength != 0
    {
      ghost var r0, m0 := live, m;
      rec := rec.(progress := rec.progress + 1);
      if rec.progress > TRIAL_BOOTS {
        if rec.backupLength == 0 {
          rec := rec.(state := Idle, result := Broken, v5fLength := 0);
          err := Save();
          StillBackedUp(io, m0, m, r0, live);
        } else {
          rec := rec.(state := RollingBack, progress := 0);
          err := Save();
          StillBackedUp(io, m0, m, r0, live);
          if err == NoError {
            err := RollBack();
          }
        }
      } else {
        InstalledOkState(io, m, live, rec);
        err := Save();
        StillBackedUp(io, m0, m, r0, live);
      }
    }

    /** upd_boot's switch: carries on with the update under way, or starts one. */
    method CarryOn(waiting: bool) returns (err: Err)
      requires Valid() && Synced()
      modifies `m, `a, `b, `live, `rec, `power
      ensures Valid() && Kept(old(m), old(live))
      ensures ProgressOk(io, stage, old(m), old(live), m, live)
      ensures err == NoError ==> Synced() && (live.state == Idle || live.state == Trial)
      ensures err == NoError && old(live.state) == Trial && live.state == Trial ==>
                live.progress == old(live.progress) + 1
      ensures (reliable || cutsOnly) && old(live.state) == Installing
              && ResumesFrom(io, stage, old(m), old(live)) && Installable(io, stage, old(live)) ==>
                live.state == Installing || live.state == Trial
      ensures NothingToDo(old(live), waiting) ==> err == NoError && m == old(m) && live == old(live)
      ensures reliable ==> Outcomes(io, stage, waiting, old(m), old(live), err, m, live)
    {
      hide BackupGood, BackupImage, FlashImage, Genuine, Mounts, GaveUp, UpdateGivenUp, Chunks, InstalledMac, SignedImage;
      match rec.state
      case Idle =>
        err := NoError;
        if waiting {
          err := StartUpdate();
        }
      case BackingUp =>
        rec := rec.(state := Idle);
        err := StartUpdate();
      case Installing =>
        err := Install();
      case Trial =>
        err := TrialBoot();
      case RollingBack =>
        err := RollBack();
    }

    /** upd_boot's end: whether to start the image, restore the backup, or wait in recovery. */
    method BootCheck() returns (v: Verdict)
      requires Valid() && Synced() && (live.state == Idle || live.state == Trial)
      modifies `m, `a, `b, `live, `rec, `power
      ensures Valid() && Kept(old(m), old(live))
      ensures old(live.state) == Trial ==> live == old(live) && m == old(m)
      ensures old(live.v5fLength) == 0 ==> v == Recovery && live == old(live) && m == old(m)
      ensures live.state == Idle || live.state == Trial || live.state == RollingBack
      ensures old(live.state) == Idle ==> live.state != Trial
      ensures VerdictOk(io, m, live, v) && (v.Start? ==> Synced())
      ensures reliable && old(live.v5fLength != 0 && InstalledOk(io, m, live)) ==> v.Start? && m == old(m) && live == old(live)
      ensures reliable && old(Recoverable(io, m, live)).Some? && old(live.v5fLength) != 0 ==> v.Start?
      ensures reliable ==> !v.Failed?
    {
      if rec.v5fLength == 0 {
        return Recovery;
      }
      var err, ok := InstalledCheck();
      if err != NoError { return Failed(err); }
      if ok { return Start; }
      assert live.state == Idle;
      if rec.state == Idle && rec.backupLength != 0 {
        v := RestoreAndCheck();
      } else {
        v := MarkBroken();
      }
    }

    /** The image changed since its MAC was made: the backup goes back, if there's a good one. */
    method RestoreAndCheck() returns (v: Verdict)
      requires Valid() && Synced() && live.state == Idle && !InstalledOk(io, m, live)
      modifies `m, `a, `b, `live, `rec, `power
      ensures Valid() && Kept(old(m), old(live)) && (live.state == Idle || live.state == RollingBack)
      ensures VerdictOk(io, m, live, v) && (v.Start? ==> Synced())
      ensures reliable && old(Recoverable(io, m, live)).Some? ==> v.Start?
      ensures reliable ==> !v.Failed?
    {
      hide BackupGood, BackupImage, FlashImage, InstalledMac, SignedImage;
      var err := RestoreBackup();
      if err != NoError { return Failed(err); }
      var ok: bool;
      err, ok := InstalledCheck();
      if err != NoError { return Failed(err); }
      if ok && rec.result == RolledBack { return Start; }
      v := MarkBroken();
    }

    /** To RollingBack and through it. What is restored passes the boot check if the backup was accepted. */
    method RestoreBackup() returns (err: Err)
      requires Valid() && Synced() && live.state == Idle && !InstalledOk(io, m, live)
      modifies `m, `a, `b, `live, `rec, `power
      ensures Valid() && Kept(old(m), old(live)) && (live.state == Idle || live.state == RollingBack)
      ensures err == NoError ==> Synced() && live.state == Idle && (live.result == RolledBack <==> live.v5fLength != 0)
      ensures err == NoError && live.result == RolledBack && !InstalledOk(io, m, live) ==> !BackupAccepted(io, m.card, live)
      ensures err == NoError && live.result != RolledBack && (reliable || cutsOnly) ==> !BackupAccepted(io, m.card, live)
      ensures reliable ==> err == NoError
      ensures reliable && old(Recoverable(io, m, live)).Some? ==> live.result == RolledBack && InstalledOk(io, m, live) && live.v5fLength != 0
    {
      hide BackupImage, FlashImage, SignedImage, InstalledMac, Chunks;
      ghost var r0 := live;
      rec := rec.(state := RollingBack, progress := 0);
      err := Save();
      ghost var r1 := live;
      NotInstalledKeeps(io, m, r0, r1);
      if err != NoError { return; }
      err := RollBack();
      if err == NoError && live.result == RolledBack && !InstalledOk(io, m, live) {
        BadBackup(io, m, r1, live);
      }
    }

    /** No working image and no way back: recovery until a package installs. */
    method MarkBroken() returns (v: Verdict)
      requires Valid() && Synced() && live.state == Idle
      requires live.v5fLength == 0 || !InstalledOk(io, m, live)
      requires reliable || cutsOnly ==> !BackupAccepted(io, m.card, live)
      modifies `a, `b, `live, `rec, `power
      ensures Valid() && Kept(m, old(live)) && live.state == Idle
      ensures v.Recovery? ==> live.v5fLength == 0
      ensures !v.Start? && (reliable ==> v.Recovery?)
    {
      ghost var r0 := live;
      rec := rec.(result := Broken, v5fLength := 0);
      SameBackupAccepted(io, m.card, r0, rec);
      var err := Save();
      NotInstalledKeeps(io, m, r0, live);
      v := if err == NoError then Recovery else Failed(err);
    }

    /** upd_boot. */
    method Boot(waiting: bool) returns (v: Verdict)
      requires Valid() || BlankRecord()
      requires power
      modifies `m, `a, `b, `live, `rec, `power
      ensures Valid() || (old(BlankRecord()) && BlankRecord())
      ensures old(Valid()) ==> BootStep(io, stage, waiting, reliable || cutsOnly, old(m), old(live), m, live, v)
      ensures Valid() ==> VerdictOk(io, m, live, v)
      ensures v.Start? ==> Valid() && Synced()
      ensures v.Start? ==>
                forall f: seq<Block> :: |f| == SPAN_BLOCKS && InstalledOk(io, m.(flash := f), live) ==>
                  SameCovered(io, f, m.flash, live.v5fLength)
      ensures old(BlankRecord()) && Valid() ==> live.minV5f == 0
      ensures reliable && old(Valid()) ==> BootOutcome(io, stage, waiting, old(m), old(live), m, live, v)
      ensures reliable && old(BlankRecord()) ==>
                Valid() && BootOutcome(io, stage, waiting, old(m), EmptyRecord(live.token), m, live, v)
    {
      hide Recoverable, ProgressOk, BootOutcome, Chunks, InstalledOk, RecordOk;
      var err, found := RecordLoad();
      if err != NoError {
        if Valid() { FailedBoot(waiting, Failed(err)); }
        return Failed(err);
      }
      if !found {
        err := FirstRecord();
        if err != NoError { return Failed(err); }
      } else {
        LoadHolds(a, b, live);
      }
      v := AfterLoad(waiting);
      if v.Start? { StartPins(v); }
    }

    lemma StartPins(v: Verdict)
      requires Valid() && VerdictOk(io, m, live, v) && v.Start?
      ensures forall f: seq<Block> :: |f| == SPAN_BLOCKS && InstalledOk(io, m.(flash := f), live) ==>
                SameCovered(io, f, m.flash, live.v5fLength)
    {
      forall f: seq<Block> | |f| == SPAN_BLOCKS && InstalledOk(io, m.(flash := f), live)
        ensures SameCovered(io, f, m.flash, live.v5fLength)
      {
        CheckPins(io, m, live, f);
      }
    }

    /** upd_boot, once there is a record. */
    method AfterLoad(waiting: bool) returns (v: Verdict)
      requires Valid() && Synced()
      modifies `m, `a, `b, `live, `rec, `power
      ensures Valid()
      ensures BootStep(io, stage, waiting, reliable || cutsOnly, old(m), old(live), m, live, v) && live.token == old(live.token)
      ensures v.Start? ==> Synced()
      ensures reliable ==> BootOutcome(io, stage, waiting, old(m), old(live), m, live, v)
    {
      hide BackupGood, BackupImage, FlashImage, InstalledMac, SignedImage, Mounts, Genuine, Programmed, Chunks, UpdateGivenUp;
      var err := CarryOn(waiting);
      if err != NoError { return Failed(err); }
      v := BootCheck();
    }

    lemma FailedBoot(waiting: bool, v: Verdict)
      requires Valid() && v.Failed?
      ensures BootStep(io, stage, waiting, reliable || cutsOnly, m, live, m, live, v) && VerdictOk(io, m, live, v)
    {}

    /** The first boot after an erase: a new token and an empty record. */
    method FirstRecord() returns (err: Err)
      requires BlankRecord() && power
      modifies `a, `b, `live, `rec, `power
      ensures Valid() || BlankRecord()
      ensures Valid() && !BlankRecord() ==> live == EmptyRecord(live.token)
      ensures err == NoError ==> Valid() && Synced() && live == EmptyRecord(live.token)
      ensures reliable ==> err == NoError
    {
      var ok := Attempt();                // the RNG
      if !ok { return OtherError; }
      var token: nat := *;
      rec := EmptyRecord(token).(seqno := 0);
      err := RecordStore();
    }

    /** upd_confirm: ends a trial, raising the minimum version if the package asked to. */
    method Confirm() returns (err: Err)
      requires (Valid() || BlankRecord()) && power
      modifies `a, `b, `live, `rec, `power
      ensures Valid() || (old(BlankRecord()) && BlankRecord())
      ensures old(Valid()) ==> ConfirmStep(io, m, old(live), live)
      ensures reliable && old(Valid()) ==>
                err == NoError && (live == old(live) <==> old(live.state) != Trial)
    {
      var found: bool;
      err, found := RecordLoad();
      if err != NoError || !found { return; }
      LoadHolds(a, b, live);
      if rec.state != Trial { return; }
      ghost var r0 := live;
      rec := rec.(state := Idle, progress := 0, result := Installed,
                  minV5f := if rec.pkgMin > rec.minV5f then rec.pkgMin else rec.minV5f);
      err := Save();
      if live != r0 { ConfirmedIsInstalled(io, m, r0, live); }
    }
  }
}