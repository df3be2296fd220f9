/**
 * Whole runs of the update engine: any number of boots and confirms, each cut
 * anywhere, with any package (or none) in lfstage.bin at each boot. The card's
 * backup file is only written by the engine.
 */
module UpdateRuns {
  import opened Wrappers
  import opened UpdateModel
  import opened UpdateEngine

  /** What a reset finds. */
  datatype Snapshot = Snapshot(m: Media, r: Record)

  /** What fails at a boot: nothing, the power alone, or anything. */
  datatype Weather = Calm | Cuts | Storm

  datatype Event = Booted(stage: seq<Block>, waiting: bool, weather: Weather, v: Verdict) | Confirmed

  ghost predicate WellFormed(io: Config, s: Snapshot) {
    Shape(io, s.m) && RecordOk(io, s.m, s.r)
  }

  ghost predicate Step(io: Config, s: Snapshot, e: Event, s': Snapshot)
    requires WellFormed(io, s) && WellFormed(io, s')
  {
    match e
    case Booted(stage, waiting, weather, v) =>
      && BootStep(io, stage, waiting, !weather.Storm?, s.m, s.r, s'.m, s'.r, v)
      && (weather.Calm? ==> BootOutcome(io, stage, waiting, s.m, s.r, s'.m, s'.r, v))
    case Confirmed => s'.m == s.m && ConfirmStep(io, s.m, s.r, s'.r)
  }

  ghost predicate IsRun(io: Config, run: seq<Snapshot>, events: seq<Event>) {
    && |run| == |events| + 1
    && (forall i :: 0 <= i < |run| ==> WellFormed(io, run[i]))
    && (forall i :: 0 <= i < |events| ==> Step(io, run[i], events[i], run[i + 1]))
  }

  /** The image to keep at each point: the first one, until a confirm completes. */
  ghost function LastGood(io: Config, run: seq<Snapshot>, events: seq<Event>, n: nat): Option<Image>
    requires IsRun(io, run, events) && n <= |events|
  {
    if n == 0 then Recoverable(io, run[0].m, run[0].r)
    else if events[n - 1].Confirmed? && run[n].r != run[n - 1].r then
      Some(FlashImage(io, run[n - 1].m, run[n - 1].r))
    else LastGood(io, run, events, n - 1)
  }

  /** No power cut loses the last good image. */
  lemma {:induction false} LastGoodSurvives(io: Config, run: seq<Snapshot>, events: seq<Event>, n: nat)
    requires IsRun(io, run, events) && n <= |events|
    requires Recoverable(io, run[0].m, run[0].r).Some?
    ensures Recoverable(io, run[n].m, run[n].r) == LastGood(io, run, events, n)
    ensures LastGood(io, run, events, n).Some?
  {
    if n == 0 {
    } else {
      LastGoodSurvives(io, run, events, n - 1);
      assert Step(io, run[n - 1], events[n - 1], run[n]);
    }
  }

  /** So at every point either the flash passes the boot check or the card's backup is one roll_back accepts. */
  lemma {:induction false} ImageOrBackup(io: Config, run: seq<Snapshot>, events: seq<Event>, n: nat)
    requires IsRun(io, run, events) && n <= |events|
    requires Recoverable(io, run[0].m, run[0].r).Some?
    ensures var s := run[n];
            || (s.r.v5fLength != 0 && InstalledMac(io, s.m.flash, s.r) == s.r.v5fMac)
            || (BackupGood(io, s.m.card, s.r) && s.r.backupVersion >= s.r.minV5f)
  {
    LastGoodSurvives(io, run, events, n);
  }

  /** The minimum version never goes down. */
  lemma {:induction false} MinimumGrows(io: Config, run: seq<Snapshot>, events: seq<Event>, i: nat, j: nat)
    requires IsRun(io, run, events) && i <= j <= |events|
    ensures run[i].r.minV5f <= run[j].r.minV5f
    decreases j - i
  {
    if i >= j {
    } else {
      assert Step(io, run[i], events[i], run[i + 1]);
      MinimumGrows(io, run, events, i + 1, j);
    }
  }

  /** No image below any minimum the board has had is ever started, and none that fails its check. */
  lemma {:induction false} StartsAreChecked(io: Config, run: seq<Snapshot>, events: seq<Event>, i: nat, n: nat)
    requires IsRun(io, run, events) && i <= n < |events|
    requires events[n].Booted? && events[n].v.Start?
    ensures run[n + 1].r.v5fVersion >= run[i].r.minV5f
    ensures InstalledOk(io, run[n + 1].m, run[n + 1].r)
    ensures forall f: seq<Block> :: |f| == SPAN_BLOCKS && InstalledOk(io, run[n + 1].m.(flash := f), run[n + 1].r) ==>
              SameCovered(io, f, run[n + 1].m.flash, run[n + 1].r.v5fLength)
  {
    assert Step(io, run[n], events[n], run[n + 1]);
    MinimumGrows(io, run, events, i, n);
    var s := run[n + 1];
    forall f: seq<Block> | |f| == SPAN_BLOCKS && InstalledOk(io, s.m.(flash := f), s.r)
      ensures SameCovered(io, f, s.m.flash, s.r.v5fLength)
    {
      CheckPins(io, s.m, s.r, f);
    }
  }

  /**
   * A covered byte that has changed since the MAC was made is never started: what a boot
   * starts under the same MAC has the byte put right, and if the board stays idle it is the backup.
   */
  lemma {:induction false} ChangedNotStarted(io: Config, s: Snapshot, e: Event, s': Snapshot, f: seq<Block>, i: nat)
    requires WellFormed(io, s) && WellFormed(io, s') && Step(io, s, e, s') && e.Booted? && e.v.Start?
    requires |f| == SPAN_BLOCKS && InstalledOk(io, s.m.(flash := f), s.r)
    requires Covered(io, s.r.v5fLength, i) && ByteAt(s.m.flash, i) != ByteAt(f, i)
    ensures SameInstalled(s.r, s'.r) ==> ByteAt(s'.m.flash, i) == ByteAt(f, i)
    ensures s.r.state == s'.r.state == Idle && Recoverable(io, s.m, s.r).Some? ==>
              BackupAccepted(io, s.m.card, s.r) && FlashImage(io, s'.m, s'.r) == BackupImage(io, s.m.card, s.r)
  {
    MacPins(io, f, s.r, s.m.flash, s.r);
    MacPins(io, f, s.r, s'.m.flash, s'.r);
  }

  /** How many times boots i..j-1 started the image that was on trial after them. */
  ghost function TrialStarts(run: seq<Snapshot>, events: seq<Event>, i: nat, j: nat): nat
    requires |run| == |events| + 1 && i <= j <= |events|
    decreases j
  {
    if i == j then 0
    else TrialStarts(run, events, i, j - 1)
         + (if events[j - 1].Booted? && events[j - 1].v.Start? && run[j].r.state == Trial then 1 else 0)
  }

  lemma {:induction false} TrialStartsCounted(io: Config, run: seq<Snapshot>, events: seq<Event>, i: nat, j: nat)
    requires IsRun(io, run, events) && i < j <= |events|
    requires run[i].r.state != Trial
    requires forall k :: i < k <= j ==> run[k].r.state == Trial
    ensures TrialStarts(run, events, i, j) <= run[j].r.progress + 1
    decreases j
  {
    hide BootOutcome, Recoverable, Stranded, Named, ResumesFrom, Installable, RecordOk;
    assert Step(io, run[j - 1], events[j - 1], run[j]);
    if j == i + 1 {
      assert TrialStarts(run, events, i, i) == 0;
    } else {
      TrialStartsCounted(io, run, events, i, j - 1);
    }
  }

  /** An image that is never confirmed is started at most UPD_TRIAL_BOOTS + 1 times. */
  lemma {:induction false} TrialIsBounded(io: Config, run: seq<Snapshot>, events: seq<Event>, i: nat, j: nat)
    requires IsRun(io, run, events) && i < j <= |events|
    requires run[i].r.state != Trial
    requires forall k :: i < k <= j ==> run[k].r.state == Trial
    ensures TrialStarts(run, events, i, j) <= 4
  {
    TrialStartsCounted(io, run, events, i, j);
  }

  // ---- resuming ----------------------------------------------------------------------------

  /** An update that is under way is of the staged package, and its progress is that package's blocks. */
  ghost predicate Resumes(io: Config, stage: seq<Block>, s: Snapshot) {
    s.r.state == Installing ==> Named(io, stage, s.r) && ResumesFrom(io, stage, s.m, s.r)
  }

  /** Boots only, with the same file staged at each. */
  predicate BootsOf(stage: seq<Block>, events: seq<Event>, n: nat) {
    n <= |events| && forall i :: 0 <= i < n ==> events[i].Booted? && events[i].stage == stage
  }

  /**
   * Resuming is exact: while the same package stays on the card, boots cut
   * anywhere never leave progress that isn't the package's blocks, and an image
   * that goes on trial is the package's, block for block.
   */
  lemma {:induction false} ResumeIsExact(io: Config, stage: seq<Block>, run: seq<Snapshot>, events: seq<Event>, n: nat)
    requires IsRun(io, run, events) && BootsOf(stage, events, n)
    requires Resumes(io, stage, run[0])
    ensures Resumes(io, stage, run[n])
    ensures run[n].r.state == Installing ==> Resumable(run[n].r.progress, BlocksOf(run[n].r.pkgLength))
    ensures n > 0 && run[n].r.state == Trial && run[n - 1].r.state != Trial ==> HasImage(io, stage, run[n])
  {
    if n == 0 {
    } else {
      ResumeIsExact(io, stage, run, events, n - 1);
      assert Step(io, run[n - 1], events[n - 1], run[n]);
    }
  }

  /** However often an update is cut, at most the work on one sector is done again: progress only grows. */
  lemma {:induction false} WorkIsKept(io: Config, run: seq<Snapshot>, events: seq<Event>, i: nat, n: nat)
    requires IsRun(io, run, events) && i <= n <= |events|
    requires forall k :: i <= k <= n ==> run[k].r.state == Installing
    ensures |run[i].m.flash| == |run[n].m.flash| && Forward(run[i].m, run[i].r, run[n].m, run[n].r)
  {
    if n == i {
    } else {
      WorkIsKept(io, run, events, i, n - 1);
      assert Step(io, run[n - 1], events[n - 1], run[n]);
    }
  }

  /** The whole of the staged package's image is in flash. */
  ghost predicate HasImage(io: Config, stage: seq<Block>, s: Snapshot) {
    && |stage| > 0 && io.parse(stage[0]).Some?
    && var p := io.parse(stage[0]).value;
    && BlocksOf(p.length) <= |s.m.flash|
    && Programmed(io, s.m.flash, stage, BlocksOf(p.length)) && Chunks(s.m.flash, p.length) == p.image
    && s.r.v5fVersion == p.version && s.r.v5fLength == if io.checkPages then APP_SPAN else p.length
  }

  /** The block after k other blocks and block 0 decrypts, passes its hash, and is this data. */
  predicate Opened(io: Config, stage: seq<Block>, k: nat, data: Block) {
    k + 1 < |stage| && io.open(stage[0], k + 1, stage[k + 1]) == Some(data)
  }

  /** Each block of it is the package's block, opened, and what a backup or a confirm would keep holds every byte of it. */
  lemma {:induction false} TrialHoldsPackage(io: Config, stage: seq<Block>, s: Snapshot)
    requires WellFormed(io, s) && HasImage(io, stage, s)
    ensures var p := io.parse(stage[0]).value;
            && (forall k :: 0 <= k < BlocksOf(p.length) ==> Opened(io, stage, k, s.m.flash[k]))
            && p.length <= s.r.v5fLength
            && forall i: nat :: i < p.length ==>
                 && ByteOf(p.image, i).Some?
                 && ByteOf(FlashImage(io, s.m, s.r).chunks, i) == ByteOf(p.image, i) == Some(ByteAt(s.m.flash, i))
  {
    var p := io.parse(stage[0]).value;
    forall k | 0 <= k < BlocksOf(p.length)
      ensures Opened(io, stage, k, s.m.flash[k])
    {
      assert Content(io, stage, k) == Some(s.m.flash[k]);
    }
    forall i: nat | i < p.length
      ensures ByteOf(p.image, i).Some?
      ensures ByteOf(FlashImage(io, s.m, s.r).chunks, i) == ByteOf(p.image, i) == Some(ByteAt(s.m.flash, i))
    {
      ChunkBytes(s.m.flash, p.length, i);
      ChunkBytes(s.m.flash, s.r.v5fLength, i);
    }
  }

  /** If only the power fails, an update with a good package is never given up. */
  lemma {:induction false} ResumeGoesOn(io: Config, stage: seq<Block>, run: seq<Snapshot>, events: seq<Event>, n: nat)
    requires IsRun(io, run, events) && BootsOf(stage, events, n) && Sincere(io, stage)
    requires run[0].r.state == Installing && Resumes(io, stage, run[0])
    requires forall i :: 0 <= i < n ==> !events[i].weather.Storm? && run[i].r.state != Trial
    ensures Resumes(io, stage, run[n])
    ensures run[n].r.state == Installing || (run[n].r.state == Trial && HasImage(io, stage, run[n]))
  {
    if n == 0 {
    } else {
      ResumeGoesOn(io, stage, run, events, n - 1);
      ResumeIsExact(io, stage, run, events, n);
      assert Step(io, run[n - 1], events[n - 1], run[n]);
    }
  }

  /**
   * However often the power went, the first boot that it doesn't ends on trial with
   * the whole region the package's, if the same good package is staged throughout.
   */
  lemma {:induction false} ResumeCompletes(io: Config, stage: seq<Block>, run: seq<Snapshot>, events: seq<Event>, n: nat)
    requires IsRun(io, run, events) && BootsOf(stage, events, n + 1) && Sincere(io, stage)
    requires run[0].r.state == Installing && Resumes(io, stage, run[0])
    requires forall i :: 0 <= i < n ==> !events[i].weather.Storm?
    requires forall i :: 0 <= i <= n ==> run[i].r.state != Trial
    requires events[n].weather.Calm?
    ensures events[n].v.Start? && run[n + 1].r.state == Trial && HasImage(io, stage, run[n + 1])
  {
    ResumeGoesOn(io, stage, run, events, n);
    ResumeIsExact(io, stage, run, events, n + 1);
    assert Step(io, run[n], events[n], run[n + 1]);
  }

  /** A boot that starts an update leaves one that resumes. */
  lemma {:induction false} UpdateResumes(io: Config, stage: seq<Block>, s: Snapshot, e: Event, s': Snapshot)
    requires WellFormed(io, s) && WellFormed(io, s') && Step(io, s, e, s') && e.Booted? && e.stage == stage
    requires s.r.state != Installing && s'.r.state == Installing
    ensures Resumes(io, stage, s') && Genuine(io, stage, io.parse(stage[0]).value)
  {}

  // ---- rolling back -------------------------------------------------------------------------

  /**
   * So with a rollback: however often it was cut, one undisturbed boot ends with
   * the whole region the backup's, and starts it.
   */
  lemma {:induction false} RestoreCompletes(io: Config, run: seq<Snapshot>, events: seq<Event>, n: nat)
    requires IsRun(io, run, events) && n < |events|
    requires BackupAccepted(io, run[0].m.card, run[0].r)
    requires forall i :: 0 <= i <= n ==> run[i].r.state == RollingBack
    requires events[n].Booted? && events[n].weather.Calm?
    ensures events[n].v.Start? && run[n + 1].r.state == Idle
    ensures FlashImage(io, run[n + 1].m, run[n + 1].r) == BackupImage(io, run[0].m.card, run[0].r)
  {
    LastGoodSurvives(io, run, events, n);
    NoConfirm(io, run, events, n);
    assert Step(io, run[n], events[n], run[n + 1]);
  }

  lemma {:induction false} NoConfirm(io: Config, run: seq<Snapshot>, events: seq<Event>, n: nat)
    requires IsRun(io, run, events) && n <= |events|
    requires forall i :: 0 <= i <= n ==> run[i].r.state == RollingBack
    ensures LastGood(io, run, events, n) == Recoverable(io, run[0].m, run[0].r)
  {
    if n == 0 {
    } else {
      NoConfirm(io, run, events, n - 1);
      assert Step(io, run[n - 1], events[n - 1], run[n]);
    }
  }

  // ---- power cuts alone ------------------------------------------------------------------------

  /** If only the power fails, the board never gives up an image it could put back. */
  lemma {:induction false} NeverStranded(io: Config, run: seq<Snapshot>, events: seq<Event>, n: nat)
    requires IsRun(io, run, events) && n <= |events| && !Stranded(io, run[0].m, run[0].r)
    requires forall i :: 0 <= i < n && events[i].Booted? ==> !events[i].weather.Storm?
    ensures !Stranded(io, run[n].m, run[n].r)
  {
    if n == 0 {
    } else {
      NeverStranded(io, run, events, n - 1);
      assert Step(io, run[n - 1], events[n - 1], run[n]);
    }
  }

  /**
   * A rollback with a good backup can leave the board stranded at its next boot
   * exactly if something else than the power can fail there.
   */
  lemma {:induction false} StrandedExactly(io: Config, s: Snapshot, stage: seq<Block>, waiting: bool, weather: Weather)
    requires WellFormed(io, s) && s.r.state == RollingBack && BackupAccepted(io, s.m.card, s.r)
    ensures weather.Storm? <==> CanStrand(io, s, stage, waiting, weather)
  {
    if weather.Storm? {
      StrandedByOneRead(io, s, stage, waiting);
      assert Strands(io, s, Booted(stage, waiting, Storm, Recovery), Snapshot(s.m, GivenUpRecord(s.r)));
    }
  }

  ghost predicate CanStrand(io: Config, s: Snapshot, stage: seq<Block>, waiting: bool, weather: Weather)
    requires WellFormed(io, s)
  {
    exists v, s' :: Strands(io, s, Booted(stage, waiting, weather, v), s')
  }

  ghost predicate Strands(io: Config, s: Snapshot, e: Event, s': Snapshot)
    requires WellFormed(io, s)
  {
    WellFormed(io, s') && Step(io, s, e, s') && Stranded(io, s'.m, s'.r)
  }

  /** The record NoWayBack stores. */
  function GivenUpRecord(r: Record): Record {
    r.(seqno := r.seqno + 1, state := Idle, result := Broken, v5fLength := 0)
  }

  /** One read of the card fails as roll_back looks at the backup: the backup stays as good as it was. */
  lemma {:induction false} StrandedByOneRead(io: Config, s: Snapshot, stage: seq<Block>, waiting: bool)
    requires WellFormed(io, s) && s.r.state == RollingBack && BackupAccepted(io, s.m.card, s.r)
    ensures Strands(io, s, Booted(stage, waiting, Storm, Recovery), Snapshot(s.m, GivenUpRecord(s.r)))
  {
    var r' := GivenUpRecord(s.r);
    SameBackupAccepted(io, s.m.card, s.r, r');
    StillBackedUp(io, s.m, s.m, s.r, r');
  }

  /** Without an image and with no package waiting the board stays as it is: nothing is started, the card's image least. */
  lemma {:induction false} StaysInRecovery(io: Config, run: seq<Snapshot>, events: seq<Event>, n: nat)
    requires IsRun(io, run, events) && n <= |events|
    requires run[0].r.state == Idle && run[0].r.v5fLength == 0
    requires forall i :: 0 <= i < n && events[i].Booted? ==> !events[i].waiting
    ensures run[n] == run[0]
    ensures forall i :: 0 <= i < n && events[i].Booted? ==> !events[i].v.Start?
    ensures forall i :: 0 <= i < n && events[i].Booted? && events[i].weather.Calm? ==> events[i].v.Recovery?
  {
    if n == 0 {
    } else {
      hide Recoverable, ProgressOk, VerdictOk, Stranded, RecordOk;
      StaysInRecovery(io, run, events, n - 1);
      assert Step(io, run[n - 1], events[n - 1], run[n]);
    }
  }

  /**
   * Whatever the power did, and whatever is staged, one undisturbed boot starts an image:
   * a new one on trial, or the last good one.
   */
  lemma {:induction false} OneGoodBoot(io: Config, run: seq<Snapshot>, events: seq<Event>, n: nat)
    requires IsRun(io, run, events) && n < |events|
    requires Recoverable(io, run[0].m, run[0].r).Some? && !Stranded(io, run[0].m, run[0].r)
    requires forall i :: 0 <= i < n && events[i].Booted? ==> !events[i].weather.Storm?
    requires events[n].Booted? && events[n].weather.Calm?
    ensures events[n].v.Start? && InstalledOk(io, run[n + 1].m, run[n + 1].r)
    ensures run[n + 1].r.state == Trial
            || Some(FlashImage(io, run[n + 1].m, run[n + 1].r)) == LastGood(io, run, events, n)
  {
    NeverStranded(io, run, events, n);
    LastGoodSurvives(io, run, events, n);
    assert Step(io, run[n], events[n], run[n + 1]);
  }

  lemma {:induction false} StartOfRun(io: Config, run: seq<Snapshot>)
    requires |run| == 1 && WellFormed(io, run[0])
    ensures IsRun(io, run, [])
  {}

  lemma {:induction false} OneMore(io: Config, run: seq<Snapshot>, events: seq<Event>, e: Event, s': Snapshot)
    requires IsRun(io, run, events) && WellFormed(io, s') && Step(io, run[|events|], e, s')
    ensures IsRun(io, run + [s'], events + [e])
  {
    hide Step, WellFormed;
  }

  /** The engine's own runs are runs in this sense. */
  method Live(u: Updater, boots: seq<Option<(seq<Block>, bool, Weather)>>)
    returns (ghost run: seq<Snapshot>, ghost events: seq<Event>)
    requires u.Valid()
    modifies u
    ensures u.Valid() && IsRun(u.io, run, events) && |events| == |boots|
    ensures run[0] == Snapshot(old(u.m), old(u.live)) && run[|boots|] == Snapshot(u.m, u.live)
  {
    hide BootStep, BootOutcome, ConfirmStep, RecordOk, IsRun;
    run, events := [Snapshot(u.m, u.live)], [];
    StartOfRun(u.io, run);
    for i := 0 to |boots|
      invariant u.Valid() && IsRun(u.io, run, events) && |events| == i && |run| == i + 1
      invariant run[0] == Snapshot(old(u.m), old(u.live)) && run[i] == Snapshot(u.m, u.live)
    {
      u.power := true;
      match boots[i] {
        case Some((stage, waiting, weather)) =>
          u.stage, u.reliable, u.cutsOnly := stage, weather.Calm?, weather.Cuts?;
          var v := u.Boot(waiting);
          OneMore(u.io, run, events, Booted(stage, waiting, weather, v), Snapshot(u.m, u.live));
          run, events := run + [Snapshot(u.m, u.live)], events + [Booted(stage, waiting, weather, v)];
        case None =>
          u.reliable := *;
          var _ := u.Confirm();
          OneMore(u.io, run, events, Confirmed, Snapshot(u.m, u.live));
          run, events := run + [Snapshot(u.m, u.live)], events + [Confirmed];
      }
    }
  }
}
