# LiteForth in Dafny

A model of the stateful parts of the LiteForth firmware that promise something
over whole runs, and proofs of what they promise. Each module follows one part of
the sources:

| files | what they model |
|---|---|
| UpdateModel, UpdateEngine, UpdateRuns | the firmware update engine: flash, the two-copy record and the card's backup file, with a failure or a power cut at every erase, write and read (src/update.c) |
| Slices, Vm, Code, MicroOps, MultiplyStep | bit slices of memory and the virtual machine's instructions (src/vm.c) |
| Compiler, Returning, Definitions | the compiler, and that the code it packs means what was compiled (src/comp.c) |
| Limbs, ModL, Poly1305 | multi-limb arithmetic: reduction modulo L and Poly1305 (src/monocypher.c) |
| FontCodec | the glyph codec and the proof that its encoder is optimal (scripts/mkfont.py) |
| Cache | the block buffers as a cache of plain storage (src/lfblocks.c) |
| ExfatDirectory, ExfatFiles, ExfatVolume | creating, trimming, deleting and finding files on an exFAT volume (src/exfat.c) |
| LogRecovery | closing data logs after a power cut (src/datalog.c, src/logfile.c) |
| Ymodem | stage 1's YMODEM receiver (src/ymrecv.c) |
| Wrappers, Arithmetic | an option type; bitwise and, and facts about products and quotients |

How the outside world appears:

- A power cut in the update engine is a primitive that stops taking effect, in the
  middle of an erase or a write if it likes: a flash sector or a card block that is
  cut holds anything, a record copy that is cut is torn, and from then on nothing
  happens until the next boot. Hashes and MACs are symbolic: a digest is the data
  it covers, so digests are equal exactly when the data are. CTR encryption is any
  function that is its own inverse.
- On the exFAT volume, the block storage and the log files, reads and writes fail
  whenever they like. Sectors are written whole or not at all; a writer that stops
  at a failed write leaves what a power cut there would.
- Each of these has a field `reliable`, which no operation changes: when it holds
  nothing fails, and contracts then say exactly when an operation succeeds. The
  update engine also has boots at which only the power fails (`cutsOnly`).
- Machine words are natural numbers with a bound, and wrap where the sources wrap.
  Shifts and masks are written as division and remainder, an or of separate bits
  as a sum.

What the proofs found that the sources' comments do not say:

- `NewInst` drops the error of `commaCode`, and its callers return 0. A group that
  does not fit is lost without a word of it: `Compiler.LoseGroup` shows one, and
  `CompUop` says exactly when. `Fits` is what a caller can check before: with that
  much room nothing is lost, and every compile word says exactly how much it needs.
- A call to an address of more than 13 bits is compiled with a prefix that is
  shifted by 9 and never reaches it (`Compiler.CallReachesNearOnly` gives the exact
  condition).
- After an I/O error that comes between a trim's two writes, `log_recover` counts a
  log that is closed already as one to pass over, and the next round passes over
  one it has not seen (`LogRecovery.OneIsMissed`). `LogRecovery.ExactlyOnce` says
  exactly when each log is dealt with once: when no log is lost so in a round that
  leaves some to the next.
- After a read of the card that fails for a moment in `roll_back`, the board gives up
  an image that is still on the card (`UpdateModel.Stranded`): from any rollback with
  a good backup that can happen at the next boot exactly if something else than the
  power can fail there (`UpdateRuns.StrandedExactly`, with the record it leaves in
  `StrandedByOneRead`). It then stays in recovery over every boot until a package
  comes (`UpdateRuns.StaysInRecovery`). Power cuts alone never bring it there
  (`UpdateRuns.NeverStranded`).

## Model

| member | source | states |
|---|---|---|
| UpdateModel.LoadHolds | src/update.c:122-139 | The copy a load picks is the record whose sequence parity names that copy, when the other copy is torn or older |
| UpdateModel.StoreIsAtomic | src/update.c:113-160 | A store cut anywhere leaves the record before it or, whole, the one stored; and the copies are fit for the next store |
| UpdateModel.ChunkBytes | src/update.c:57-96 | What image_mac and image_hash digest, byte by byte: byte i of the flash for every i below the length, and nothing else |
| UpdateModel.ChunksPin | src/update.c:57-96 | Two images of one length are the same exactly if each of their bytes is |
| UpdateModel.MacPins | src/update.c:193-210 | Two MACs are equal if and only if token, version and the set of bytes covered are, and each byte covered: with check_pages the whole span of 425984 bytes, else the image up to the slot's 163840 |
| UpdateModel.ImagePins | src/update.c:193-217 | Two installed images are the same exactly if version, length, every byte below the length and, with check_signature, the stored block 0 are |
| UpdateModel.SignedPins | src/update.c:242-281 | With check_signature what passes the boot check is what a signed package for this board, of the record's version and no older than the minimum, describes in every byte of the span and of the machine-mode region |
| UpdateEngine.Updater.RecordLoad | src/update.c:122-139 | Loads the newest valid copy, or finds none |
| UpdateEngine.Updater.RecordStore | src/update.c:143-160 | Writes only the copy of the new sequence number's parity, so the other survives; what a reset finds is the old record or the new one |
| UpdateEngine.Updater.ProgramBlock | src/update.c:165-181 | A block is programmed, its sector erased first when it is the sector's first; blocks before it are never touched, whatever is cut |
| UpdateEngine.Updater.SignedOk | src/update.c:242-281 | Accepts exactly an image whose stored block 0 is a signed one of this version, length and content, no older than the minimum |
| UpdateEngine.Updater.InstalledCheck | src/update.c:286-296 | The boot check: passes exactly when the installed image's MAC and, if asked for, its signature match |
| UpdateEngine.RestoredIsBackup | src/update.c:484-558 | Restoring every block of a good backup rebuilds the image it was made of |
| UpdateEngine.BackupHoldsImage | src/update.c:416-501 | A backup that reads back is one backup_good accepts, of the image installed |
| UpdateEngine.Updater.MakeBackup | src/update.c:416-480 | A success leaves a backup of the installed image that reads back; only the card and the backup fields change |
| UpdateEngine.Updater.BackupCheck | src/update.c:484-501 | True exactly when the card's file is the one the record's MAC covers (never true of a read that failed) |
| UpdateEngine.Updater.RestoreBlock | src/update.c:520-545 | One block of the backup restored; those before it stay the backup's |
| UpdateEngine.Updater.RestoreBlocks | src/update.c:520-545 | Blocks below progress are the backup's throughout, from wherever the last cut left off; at the end progress is all of them, and a cut never loses more than the work on one sector |
| UpdateEngine.Updater.FinishRollBack | src/update.c:546-558 | The restored image becomes the installed one, with its own version, length and MAC |
| UpdateEngine.Updater.NoWayBack | src/update.c:511-519 | roll_back's giving up: no image is left, and the board is stranded exactly if the backup was one that could have been restored |
| UpdateEngine.Updater.RollBack | src/update.c:508-558 | Rolls back exactly when the backup is good and not below the minimum, else gives the image up; what was recoverable stays so wherever it is cut |
| UpdateEngine.Updater.MountPackage | src/update.c:310-375 | Accepts exactly the packages the board takes; with the whole check, exactly those whose every page is genuine. A package taken is no older than the minimum, for this board, and an app image of the whole span or, without check_signature, a V5F image of no more than the slot |
| UpdateEngine.Updater.CheckContent | src/update.c:349-375 | The whole check: every content block passes its hash and together they are the image block 0 names |
| UpdateEngine.ProgrammedImage | src/update.c:563-612 | Flash that holds a genuine package's blocks holds its image |
| UpdateEngine.Updater.InstallBlock | src/update.c:585-602 | One block of the package programmed; those before it stay |
| UpdateEngine.Updater.InstallStep | src/update.c:583-609 | Progress moves only past a block that is in flash, and does so at each sector's end and the image's |
| UpdateEngine.Updater.InstallBlocks | src/update.c:583-609 | If the blocks below progress were the package's, all are when it is done, and those below progress are wherever it stops; progress only grows, and past the sector after it nothing was touched |
| UpdateEngine.Updater.CheckInstalled | src/update.c:610-618 | What is in flash is the package's image, and the boot check's signature test will pass |
| UpdateEngine.Updater.StartTrial | src/update.c:619-629 | The record goes to trial with the package's version, length and MAC and no boots counted, all at once |
| UpdateEngine.Updater.GiveUp | src/update.c:596-618 | A package that does not check out ends in a rollback; nothing recoverable is lost. Undisturbed, a good backup no older than the minimum is back, or no image is left |
| UpdateEngine.Updater.Install | src/update.c:563-629 | One call, cut anywhere, leaves INSTALLING with trustworthy progress, a trial of the checked image, or a rollback. Undisturbed, an installable package ends on trial and any other ends there or rolled back; power cuts alone never make an installable one be given up |
| UpdateEngine.Updater.InstallMounted | src/update.c:576-629 | The same from where the package is known to be the one under way |
| UpdateEngine.Updater.ProgramPackage | src/update.c:576-618 | The loop and the checks: the flash holds the package's image; undisturbed, or if only the power could fail and did not, a sincere package passes |
| UpdateEngine.BackingUpKeeps | src/update.c:632-668 | While the backup is written the flash still passes the boot check, or else the card is not touched |
| UpdateEngine.BackupDoneKeeps | src/update.c:656-672 | Entering INSTALLING loses nothing: the image that was installed is on the card |
| UpdateEngine.Updater.Announce | src/update.c:659-672 | One store says what is to be installed, that a backup is being made and, if it overwrites one, that there is none |
| UpdateEngine.Updater.StartUpdate | src/update.c:632-682 | Undisturbed: refuses exactly a package that does not mount or is not genuine, and one that finds no room for the backup, leaving all else alone; takes a sincere one that fits to its trial; any other ends in a trial or with the image that was installed back (or, if there was none to keep, what the backup there was allows) |
| UpdateEngine.Updater.TrialBoot | src/update.c:727-757 | Counts the start before it is made; after UPD_TRIAL_BOOTS it rolls back instead |
| UpdateEngine.Updater.CarryOn | src/update.c:718-790 | Resumes what the record says is under way, state by state, with the outcome of each when nothing fails |
| UpdateEngine.Updater.BootCheck | src/update.c:791-815 | Starts an image only if it passes its check; otherwise tries a backup, else recovery |
| UpdateEngine.Updater.RestoreBackup | src/update.c:795-812 | An image that fails its check is rolled back; what was restored passes the check if the backup was accepted |
| UpdateEngine.Updater.Boot | src/update.c:684-815 | One boot, cut anywhere: keeps what was recoverable and the minimum version, starts only a checked image, each byte its MAC covers as it was when the MAC was made. Undisturbed it finishes what was under way: in INSTALLING with another package it rolls back, and an image that can be put back is started; on blank records it does what it would with nothing installed |
| UpdateEngine.Updater.Confirm | src/update.c:821-839 | Makes the image on trial the one to keep and raises the minimum version to the package's, or does nothing |
| UpdateRuns.LastGoodSurvives | src/update.c:684-839 | No power cut loses the last good image: over any run of boots and confirms cut anywhere, what can be recovered is the last image confirmed (or the first) |
| UpdateRuns.ImageOrBackup | src/update.c:684-839 | At every point of every run the flash passes the boot check's MAC or the card holds a backup that roll_back accepts |
| UpdateRuns.MinimumGrows | src/update.c:821-839 | The minimum version never decreases over any run |
| UpdateRuns.StartsAreChecked | src/update.c:727-815 | No image below any earlier minimum, and none that fails its check, is ever started: in every byte the MAC covers, what is started agrees with any flash that passes under the same record |
| UpdateRuns.ChangedNotStarted | src/update.c:763-812 | A boot never starts an image one of whose covered bytes has changed since its MAC was made: under the same MAC it starts it only with that byte put right, and from an idle board that stays idle it starts the backup |
| UpdateRuns.TrialStartsCounted | src/update.c:727-757 | Starts of an unconfirmed image are at most those the record has counted, plus one |
| UpdateRuns.TrialIsBounded | src/update.c:727-757 | An image never confirmed is started at most UPD_TRIAL_BOOTS + 1 = 4 times, whatever is cut |
| UpdateRuns.ResumeIsExact | src/update.c:563-629 | However often it is cut, an installation of one package never trusts a block that is not the package's, the record goes on naming that package, and the image that goes on trial is the package's, block for block |
| UpdateRuns.WorkIsKept | src/update.c:583-609 | Over any run of boots of one update stored progress only grows, and nothing past the sector after it is touched: a cut costs at most the work on one sector |
| UpdateRuns.TrialHoldsPackage | src/update.c:583-629 | What goes on trial: block k of the region is block k of the package opened as block k + 1 of the file, and the image of the recorded length, which a backup or a confirm keeps, has every byte of the package's image |
| UpdateRuns.ResumeGoesOn | src/update.c:563-629 | Over any run of boots with a good package staged in which only the power fails, the update is still under way or on trial with the whole image |
| UpdateRuns.ResumeCompletes | src/update.c:563-629 | After any number of cuts, one uncut boot with the file unchanged ends on trial with every block of the region the package's |
| UpdateRuns.UpdateResumes | src/update.c:632-682 | A boot that starts an update, cut anywhere, leaves one that resumes so |
| UpdateRuns.RestoreCompletes | src/update.c:508-558 | After any number of cuts of a rollback, one uncut boot ends with the region equal to the backup's image, and starts it |
| UpdateRuns.NeverStranded | src/update.c:508-519 | If only the power fails, no run comes to a board without an image while the card has one to put back |
| UpdateRuns.StrandedExactly | src/update.c:508-519 | A rollback with a good backup can leave the board stranded at its next boot if and only if something else than the power can fail there |
| UpdateRuns.StrandedByOneRead | src/update.c:511-519 | The boot that does it: the record says that no image is left, and the backup is as good as before |
| UpdateRuns.StaysInRecovery | src/update.c:763-768 | Without an image and with no package waiting, no boot of any run starts anything or changes anything, whatever is on the card |
| UpdateRuns.OneGoodBoot | src/update.h:16-19 | After any run in which only the power failed, whatever is staged, one undisturbed boot starts an image: a new one on trial, or the last good one |
| UpdateRuns.Live | src/update.c:684-839 | Every run of the engine itself is a run in the sense of these lemmas |
| Slices.SliceLaw | src/vm.c:79-117 | For any slice within its cell: what is stored reads back, and the bits below and above it stay |
| Slices.FieldPlusLaw | src/vm.c:51-62 | For widths that divide 32, the next slice fits its cell and does not overlap the one before |
| Slices.SlotIsHalf | src/vm.c:99-117 | A 16-bit slice store changes exactly one instruction as vmExec fetches them |
| Slices.FetchHalf | src/vm.c:79-97 | A 16-bit slice fetch reads the instruction vmExec would |
| Slices.NextSlot | src/comp.c:245-258 | vmFieldPlus of a code slot is the slot of the next code address |
| Vm.Turn | src/vm.c:272-344 | One turn of the slot loop: a micro-op is done, the rest shifted up; a failed access ends it |
| Vm.Group | src/vm.c:269-344 | The shift-register loop does the three slots in order, skipping only nops, until an access fails |
| Code.Execute | src/vm.c:260-356 | An instruction does what it decodes to, given the prefix before it, and leaves the prefix it should; branches, next and rcall included |
| Code.ExecuteOther | src/vm.c:360-376 | The branches with 9-bit offsets: on zero, always, on not negative, as a call, and counting the top of the return stack down |
| MicroOps.StackMoves | src/vm.c:277-326 | nop changes nothing; over and dup push N and T, drop and px! remove T, swap exchanges T and N; every other item, to the depth of the stack, and all else stay |
| MicroOps.RegisterMoves | src/vm.c:280-342 | a, b and cy push those registers, a! and b! take T into them; all else stays |
| MicroOps.BitwiseOps | src/vm.c:278-288 | inv leaves 2^32 - 1 - T; each bit of what xor and and leave is that of T and N's bits |
| MicroOps.CarryOps | src/vm.c:282-305 | + leaves a sum and a carry that are T + N together, 2/c T and the carry rotated |
| MicroOps.ShiftOps | src/vm.c:293-308 | 2* leaves 2T less what goes over the top, 2/ the signed value of T halved downwards |
| MicroOps.MultiplyOp | src/vm.c:328-335 | +* leaves T:A, with N added in its high half if it was odd, halved downwards; N and the items below stay |
| MicroOps.ReturnStackOps | src/vm.c:289-300 | >r moves T to the return stack, r> moves it back, r@ copies it; items below stay |
| MicroOps.PushThenPop | src/vm.c:289-300 | >r and then r> leaves every item of both stacks as it was, but for the return stack's deepest cell |
| MicroOps.Fetches | src/vm.c:79-97 | @a, @a+, @b and @b+ push the slice at the address, bit by bit, with zeros above (0 and the error if it cannot be read); then the address goes on to the next slice |
| MicroOps.Stores | src/vm.c:99-117 | !a, !a+, !b and !b+ drop T and put its bits in the slice at the address; no other bit of memory changes, and none at all if it cannot be written |
| MicroOps.SignedFetch | src/vm.c:309-318 | @as pushes the slice's value in two's complement |
| MicroOps.NextIs | src/vm.c:51-62 | vmFieldPlus for every width: the same cell if the next slice ends in it, else the next cell with the shift wrapped at 32 |
| MicroOps.GroupInOrder | src/vm.c:260-344 | A group does its return first, then its micro-ops from the high bits down, and none after one that fails |
| MicroOps.Return | src/vm.c:262-265 | A return goes on at R and drops it |
| MicroOps.ThirteenBits | src/vm.c:345-356 | Jumps, calls and literals by their numbers, with the prefix before their 13 bits and cleared after; a call pushes the address after it |
| MicroOps.PrefixOps | src/vm.c:440-443 | pfx and pfx1 shift ten more bits into the prefix |
| MicroOps.Branches | src/vm.c:360-371 | zbran, bran and pbran: when each branches, and that it goes on at the address after it plus its nine bits in two's complement |
| MicroOps.NearCall | src/vm.c:372-373 | rcall branches so and pushes the address after it |
| MicroOps.Next | src/vm.c:374-376 | next counts R down, branches if it is not 0 then, and drops it if it is |
| Code.RunLive | src/vm.c:269-344 | Dropping nops changes nothing |
| Code.StraightLine | src/vm.c:239-356 | Straight-line code run from memory does the acts it decodes to and ends just after itself, if no access fails or stores into it |
| Returning.RetFree | src/comp.c:47-60 | No micro-op but those UsesRetStack looks for reads or changes the return stack |
| Returning.MergedReturn | src/comp.c:218-237 | Returning first and then doing such micro-ops is doing them and then returning |
| Returning.ActsTwins | src/comp.c:224-232 | Balanced acts, with their own calls, branches, loops, returns and return stack items, do the same to a word that was called and to one that was jumped to |
| Returning.InsideTwins | src/vm.c:260-356 | So do any number of instructions that keep to the word's own return stack items |
| Returning.TailCall | src/comp.c:224-232 | A call that is followed by a return, and a jump, end in the same state at the caller's return address, whatever the word does in between (calls included), if it keeps to its own return stack items and its depth leaves room; the caller's frames are alike, only cells above the top may differ |
| Returning.JumpedReturns | src/comp.c:224-232 | A word that was jumped to, and returns, is back at its caller's caller, whose frames are as they were |
| MultiplyStep.OneStep | src/vm.c:328-335 | A multiply step halves T:A exactly, after adding N in the high half and dropping the odd bit |
| MultiplyStep.Multiplies | src/vm.c:328-335 | Thirty-two multiply steps leave T + N * A in T:A, all 64 bits |
| Compiler.UsesRetStack | src/comp.c:47-60 | True exactly when some slot of the group touches the return stack |
| Compiler.Compiler.constructor | src/comp.c:62-69 | An empty compilation at an address |
| Compiler.Compiler.CommaCode | src/comp.c:71-81 | Succeeds exactly if the cell can be written and the dictionary pointer stays below its limit; then the code is one word longer, else as it was |
| Compiler.Compiler.NewInst | src/comp.c:83-90 | Flushes the group under way: the acts compiled stay the same, unless it does not fit; then the group is lost and the error with it |
| Compiler.Compiler.CompUop | src/comp.c:118-133 | The acts compiled so far grow by exactly this micro-op, whichever slot or new group it lands in, unless a group must be flushed and does not fit; exactly when that is, and that the result is 0 all the same when the group was full |
| Compiler.LoseGroup | src/comp.c:83-90 | Four micro-ops at the last instruction below the limit: all return 0, and only the last is left |
| Compiler.PlacedActs | src/comp.c:118-133 | Setting a free slot adds that micro-op to the group's acts and no other |
| Compiler.LiteralRoundTrip | src/comp.c:135-158 | For every 32-bit x the words decode from prefix 0 to a push of x, leave prefix 0, and are at most two prefixes and a literal |
| Compiler.Compiler.PushWords | src/comp.c:139-150 | The words of x are stacked over a terminator, the last one first |
| Compiler.Compiler.CompileWaiting | src/comp.c:151-157 | They are popped and compiled in order, down to the terminator, exactly if they fit |
| Compiler.Compiler.CompUlit | src/comp.c:135-158 | The acts grow by a push of x exactly if its words and the group before them fit; the caller's data stack is as it was but for four cells above its top |
| Compiler.Compiler.CompileLit | src/comp.c:160-167 | The same for a signed literal, a negative one as its complement and inv, exactly if its words fit; a negative one returns 0 even if it is lost |
| Compiler.Compiler.CompilePrimitive | src/comp.c:189-207 | A primitive, a macro or a wide instruction adds its own acts exactly if the words it needs fit; for micro-ops, exactly when a lost group is reported |
| Compiler.Compiler.CompMacroRest | src/comp.c:201-205 | The same for the second and third micro-op of a macro |
| Compiler.Compiler.CompCall | src/comp.c:103-116 | A call to an address of 13 bits adds that call; in every case the exact words compiled, exactly if they fit |
| Compiler.CallReachesNearOnly | src/comp.c:106-115 | The words compiled for a call decode to a call at their end, which reaches its address exactly when the address has 13 bits; only then do they decode to that call and nothing else |
| Compiler.Compiler.CompExit | src/comp.c:218-237 | The code ends in a word that returns and does only micro-ops that leave the return stack alone, all acts kept, exactly if the words it needs fit; or a call just compiled becomes a jump to the same place |
| Compiler.Compiler.CompTailCall | src/comp.c:224-232 | A call to a near word and then exit: the code before it and the jump |
| Compiler.CallToJump | src/comp.c:224-232 | Clearing the call bit makes the jump to where the call went |
| Compiler.Compiler.CompileAll | src/comp.c:189-216 | A run of primitives and literals compiles to exactly their acts in order, exactly if the words they need fit; nothing in it is taken for a call to patch |
| Compiler.FourEach | src/comp.c:118-216 | No item needs more than four words |
| Compiler.JumpRoundTrip | src/comp.c:250-260 | For every 23-bit address the words storeJump stores jump there from prefix 0 |
| Compiler.StoreJump | src/comp.c:250-260 | Stores those words at the label's slots, exactly if the slots can be written, and changes no other instruction |
| Definitions.LiteralRuns | src/comp.c:160-167 | The complement inverted is the literal |
| Definitions.ItemsRun | src/comp.c:118-216 | The acts compiled for a run of items do what the items do one by one, failures included |
| Definitions.CodeRuns | src/vm.c:239-356 | The packed words, run from memory, leave the state the items leave one by one |
| Definitions.DefinitionRuns | src/comp.c:189-237 | A whole definition, entered with prefix 0, does its items and returns to its caller |
| Definitions.Define | src/comp.c:189-237 | Compiling items and then an exit where there is room, and running what was compiled from memory, does the items one by one and returns to the caller |
| Definitions.TailRuns | src/vm.c:239-356 | Words that do the items and then jump, run from memory, go into the word with the state the items leave |
| Definitions.DefineTail | src/comp.c:189-237 | A definition of items and a last call, compiled and run from the memory exit leaves: the items are done, the word is entered with the caller's return stack, and when it returns from there, with calls and branches of its own, the machine is back at the caller |
| Limbs.MulRow | src/monocypher.c:1573-1584 | One row of the product is added, with every 64-bit intermediate in range |
| Limbs.Multiply | src/monocypher.c:1573-1584 | The word-by-word loops add the exact product of the two numbers |
| ModL.IsAboveL | src/monocypher.c:1586-1600 | True exactly when x is at least L |
| ModL.RemoveL | src/monocypher.c:1602-1612 | Subtracts L once when x is at least L |
| ModL.Barrett | src/monocypher.c:1614-1656 | A quotient estimated with a reciprocal rounded down is the true one or one less |
| ModL.QuotientOf | src/monocypher.c:1614-1656 | With the stored reciprocal, the limbs above the 16th of the first product are the quotient by L or one less |
| ModL.LowProduct | src/monocypher.c:1625-1640 | The truncated product is the product modulo 2^256 |
| ModL.SubtractFrom | src/monocypher.c:1641-1651 | The subtraction by complement is exact modulo 2^256 |
| ModL.ModLimbs | src/monocypher.c:1614-1656 | For every 512-bit x the result is x mod L |
| ModL.EddsaReduce | src/monocypher.c:1658-1664 | 64 bytes to 32: the number modulo L (section 5.1 of RFC 8032) |
| ModL.EddsaMulAdd | src/monocypher.c:1667-1678 | (a * b + c) mod L of 32-byte numbers |
| Poly1305.MulModIs | src/monocypher.c:303-364 | The standard's step: the product modulo 2^130 - 5 |
| Poly1305.Dot | src/monocypher.c:335-340 | Each sum of five limb products fits 64 bits |
| Poly1305.FoldedProduct | src/monocypher.c:333-343 | The carry-free product with its high limbs folded back differs from the true one by a multiple of 2^130 - 5 |
| Poly1305.PartReduce | src/monocypher.c:345-359 | The partial reduction keeps h within its stated bound and its value modulo 2^130 - 5 |
| Poly1305.Block | src/monocypher.c:303-364 | One block: h within its bound and congruent to (h + c) * r |
| Poly1305.ClampSame | src/monocypher.c:366-375 | The masks on limbs are the standard's and with 0x0ffffffc0ffffffc0ffffffc0fffffff, byte by byte |
| Poly1305.Blocks | src/monocypher.c:310-364 | Whole blocks take the accumulator where the standard's does |
| Poly1305.ShortBlock | src/monocypher.c:413-421 | A last short block with its 1 bit is the standard's last block |
| Poly1305.Context.constructor | src/monocypher.c:366-375 | A new context has an empty message |
| Poly1305.Context.Update | src/monocypher.c:377-411 | However a message is split, the context stands for all its bytes in order |
| Poly1305.AddPad | src/monocypher.c:423-440 | The final conditional subtraction and pad give h mod (2^130 - 5) plus the pad, mod 2^128 |
| Poly1305.Context.Final | src/monocypher.c:413-440 | The tag of section 2.5 of RFC 8439 of the whole message |
| FontCodec.PackRoundTrip | scripts/mkfont.py:80-138 | Each of the four code formats unpacks to what was packed |
| FontCodec.WordMeans | scripts/mkfont.py:52-56 | What each word stands for by its bits: its format, its pixels, its runs and their shades |
| FontCodec.DecodedMean | scripts/mkfont.py:124-138 | What decode gives is what the words mean one after another, cut to the count |
| FontCodec.Decode | scripts/mkfont.py:124-138 | The decoder's pixels are those the codes stand for, cut to the count |
| FontCodec.MeasureRun | scripts/mkfont.py:73-78 | The longest run within the cap |
| FontCodec.Dominated | scripts/mkfont.py:80-121 | Whatever a code covers, some option of maximal runs reaches as far |
| FontCodec.CostShrinks | scripts/mkfont.py:80-121 | Starting later never costs more codes |
| FontCodec.NoneShorter | scripts/mkfont.py:80-121 | No code sequence that describes the rest of the pixels is shorter than the encoder's |
| FontCodec.Choose | scripts/mkfont.py:80-112 | The backward loop computes the least count from each pixel on, and a choice that attains it |
| FontCodec.Encode | scripts/mkfont.py:80-121 | The words decode to the pixels, and no words that decode to them are fewer |
| Cache.Blocks.SyncBuffer | src/lfblocks.c:36-46 | A modified buffer is written back; a failed write loses nothing seen |
| Cache.Blocks.FindOrAllocate | src/lfblocks.c:48-90 | The block's buffer, a free one, or (before the clock wraps) that of the block accessed longest ago, saved first; never a second buffer for a block, and no other buffer changes its block |
| Cache.Blocks.AssignBlock | src/lfblocks.c:92-127 | The buffer holds what is seen of the block; on an error nothing seen has changed. A success is an access that makes the block the newest; a block already held keeps every buffer's block, and a block that is given up is the one accessed longest ago |
| Cache.Blocks.AssignBuffer | src/lfblocks.c:141-152 | A buffer for a block to be overwritten, no other block affected; an access that makes the block the newest, and what is given up is the block accessed longest ago |
| Cache.Blocks.Update | src/lfblocks.c:181-192 | After it the active buffer's contents are the block's, wherever they are kept |
| Cache.Blocks.ReadBlock | src/lfblocks.c:130-139 | Reads what was last written; with steady storage, for exactly the blocks there are |
| Cache.Blocks.ModifyBlock | src/lfblocks.c:92-192 | block, a change and update act as a read and a write of plain storage; with steady storage, for exactly the blocks there are |
| Cache.Blocks.OverwriteBlock | src/lfblocks.c:154-192 | buffer, filling and update act as a write of plain storage; with steady storage, for exactly the blocks there are |
| Cache.Blocks.SaveBuffers | src/lfblocks.c:194-210 | A success leaves storage equal to what is seen; with steady storage it succeeds if no modified buffer is of a block past the end |
| Cache.Blocks.Flush | src/lfblocks.c:212-222 | A success leaves storage equal to what is seen and every buffer unassigned; a failure changes nothing seen; with steady storage it succeeds |
| Cache.Blocks.EmptyBuffers | src/lfblocks.c:224-231 | Storage is seen again |
| Cache.AccessLru | src/lfblocks.c:48-152 | If the buffers hold the blocks accessed last, they do after one more access |
| Cache.Blocks.Run | src/lfblocks.c:37-231 | Any run of these commands is that run on plain storage, in which the failed ones do nothing; with steady storage exactly those out of bounds fail. Before the clock wraps a command that gives up a block gives up the one whose last successful access is earliest, and with steady storage the blocks held are always those accessed last since the last flush |
| ExfatDirectory.StepAlike | src/exfat.c:339-434 | A change at an entry that cannot be inside a set does not disturb the walk before it |
| ExfatDirectory.VisibleIff | src/exfat.c:339-434 | exfat_find's resynchronising walk comes to exactly the sets that are whole and check, wherever broken ones lie |
| ExfatDirectory.ValidIs | src/exfat.c:360-413 | Such a set by its bytes: 0x85, a count of 2 to 18, 0xC0, secondaries in use, and the checksum stored |
| ExfatDirectory.SumOne | src/exfat.c:66-71 | One byte's step of exfat_sum16 halves the sum in 16-bit rotation (doubled, it is the sum again modulo 2^16 - 1) and adds the byte |
| ExfatDirectory.SetSumIs | src/exfat.c:614-619 | A set's checksum is that of its bytes in order without the checksum's own two |
| ExfatDirectory.KnownSums | src/exfat.c:66-71 | The sums of two known byte pairs |
| ExfatDirectory.Apart | src/exfat.c:339-434 | The sets it comes to do not overlap |
| ExfatDirectory.SetAdded | src/exfat.c:727-764 | A set written over three unused entries appears, and nothing else seen changes |
| ExfatDirectory.EndMoved | src/exfat.c:709-725 | Moving the end marker to a later sector changes nothing seen |
| ExfatDirectory.SetRemoved | src/exfat.c:837-843 | Clearing the in-use bits removes that set only |
| ExfatDirectory.SetChanged | src/exfat.c:796-803 | Rewriting a set's first entries leaves every other set seen |
| ExfatFiles.NewSetRead | src/exfat.c:727-760 | The set written has the right checksum, name and name hash, and reads back as the file asked for; what is not said of it is zero (sections 6.3.3, 7.4, 7.6 and 7.7 of the exFAT file system specification) |
| ExfatFiles.FileFields | src/exfat.c:727-737 | A new file's first entry: archive, created, modified and accessed at the time given, in UTC |
| ExfatFiles.HashIs | src/exfat.c:346-349 | The hash of a name is the checksum of its upper-case UTF-16 bytes |
| ExfatFiles.NameOkIs | src/exfat.c:621-633 | The names taken: one to fifteen printable characters, none of "*/:<>?\ and the vertical bar |
| ExfatFiles.FieldsOfEntry | src/exfat.c:404-409 | A name entry's characters are little-endian pairs, and a file without a chain is bit 1 of its flags |
| ExfatFiles.RoomIff | src/exfat.c:648-652 | So many clusters have room for a length exactly if they are no fewer than are asked for |
| ExfatFiles.ExtentHolds | src/exfat.c:648-652 | The clusters of a contiguous file hold its length, and one fewer would not |
| ExfatFiles.OwnedIs | src/exfat.c:298-337 | Which clusters a file has, by the bytes of its stream entry: its chain in the FAT, or those in a row from its first |
| ExfatFiles.MatchesAnyCase | src/exfat.c:294-296 | Names that differ only in case find the same set |
| ExfatFiles.FreeIsUnowned | src/exfat.c:587-612 | Clusters free in the bitmap belong to no visible file |
| ExfatFiles.BitmapChanged | src/exfat.c:559-585 | Marking, or clearing clusters nobody owns, keeps the volume sound |
| ExfatFiles.SetReplaced | src/exfat.c:635-851 | A change to one set keeps the volume sound if what it then owns is marked and nobody else's |
| ExfatVolume.Card.BitmapMark | src/exfat.c:559-585 | Sets or clears exactly a prefix of the bits asked for, all of them on success |
| ExfatVolume.Card.FindFree | src/exfat.c:587-612 | The lowest run of n free clusters; with no read error it is found exactly if there is one |
| ExfatVolume.Card.ScanSet | src/exfat.c:368-413 | Whether the set is whole, checks, and is the name asked for, and where the walk goes on; with no read error it fails exactly at a set that the directory's end cuts off |
| ExfatVolume.Card.FileExtent | src/exfat.c:298-337 | With no read error, accepts exactly an extent that lies in the volume, and calls any other a parse error |
| ExfatVolume.Card.Find | src/exfat.c:339-434 | The first visible set of the name. With no read error it succeeds exactly if there is one, with its extent in the volume; with none, it says so exactly if the walk comes to the directory's end in order, and else how the walk was cut off |
| ExfatVolume.Card.FindSlot | src/exfat.c:658-692 | The first three unused entries within a sector, and where the end marker is; with no read error they are found exactly if there are three |
| ExfatVolume.SlotAfterEnd | src/exfat.c:662-692 | A slot past the end marker's sector is the very start of the next one |
| ExfatVolume.DescriptionIs | src/exfat.c:366-413 | What exfat_find says of a file, by the places of the fields in its entries |
| ExfatVolume.Card.MoveEnd | src/exfat.c:709-725 | The end markers of the sector become unused entries (0x05 and zeros); nothing seen changes |
| ExfatVolume.Card.AddSet | src/exfat.c:727-764 | One sector write makes the file appear |
| ExfatVolume.Card.Create | src/exfat.c:635-773 | After any prefix of its sector writes the volume is sound, every file seen as before, and no entry in use written over; on success exactly the file asked for appears, with the time given, on clusters that were free, that hold its length and with one fewer would not. Undisturbed it succeeds exactly if the name is good and free, there are three entries and a run of free clusters with room for the length, and the chains are sound; else it gives the error of the first of these it finds missing |
| ExfatVolume.EndCloses | src/exfat.c:339-434 | A walk comes to an end-of-directory entry wherever it is, so such a directory is in order |
| ExfatVolume.Card.CreateThenFind | src/exfat.c:339-773 | A file created is the one found by its name in any case, described alike; with no error it is created exactly if it can be, and then it is found |
| ExfatVolume.Card.CheckSet | src/exfat.c:783-795 | A set in one sector with the right checksum, that says what it said of the file |
| ExfatVolume.Card.Trim | src/exfat.c:775-817 | After any prefix of its writes the volume is sound, other files as before, this one with its old length or its new; on success it has the time given, the clusters it keeps hold the new length and no more, and those past them are free. Undisturbed it succeeds exactly for a contiguous file not changed since, and refuses one that is gone |
| ExfatVolume.Card.Delete | src/exfat.c:819-851 | After any prefix of its writes the volume is sound and other files as before; on success the file's entries have lost their in-use bits and nothing else, its clusters, as many as its length needs, are free, and it cannot be trimmed or deleted again. Undisturbed it succeeds exactly for a contiguous file not changed since |
| ExfatVolume.OthersFound | src/exfat.c:339-434 | When one set changes, exfat_find of every name that is not its own, old or new, comes to the same set and reads the same of it |
| ExfatVolume.AllFound | src/exfat.c:339-773 | A create that stops anywhere before its last write leaves every name found as it was |
| ExfatVolume.OldFound | src/exfat.c:339-773 | After a create that succeeds every other name is found as it was |
| Ymodem.Receiver.Take | src/ymrecv.c:224-233 | Each byte goes to its place; a block but the first is written once, when whole |
| Ymodem.Receiver.TakePacket | src/ymrecv.c:223-237 | A packet's bytes, up to the length, with exactly the blocks they complete written in order |
| Ymodem.Receiver.OnPacket | src/ymrecv.c:212-243 | A packet's number is the last one's again, the one awaited, or out of order, which ends the transfer |
| Ymodem.Receiver.ReceiveData | src/ymrecv.c:170-245 | Never writes block 0; ends well only with the whole length taken and the right start, and from a faithful sender with its bytes; when writes succeed, exactly if the line delivers the file. Every packet taken, or taken before, is answered with an ACK, a damaged or missing one with a NAK, the end with a NAK and then an ACK, and anything else that ends the transfer breaks it off |
| Ymodem.Receiver.Receive | src/ymrecv.c:145-263 | 0 means the file's blocks are written, each once, block 0 last, and from a sender whose true packet number only repeats or steps by one they are exactly its file; otherwise block 0 was not written. When writes succeed, it is 0 exactly if the length fits, the file starts right and the line delivers it with fewer than ten faults in a row |
| Ymodem.CleanDelivers | src/ymrecv.c:170-245 | A transfer of each packet once and then the end is a faithful sender's, and delivers the file |
| Ymodem.WaitingIsFaithful | src/ymrecv.c:170-245 | Whatever packets and answers the line loses or damages, a sender that goes on only when it hears an ACK, and else sends the same again, is a faithful one |
| Ymodem.WaitingDelivers | src/ymrecv.c:170-245 | It delivers the file if every packet gets through with fewer than ten faults in a row |
| Ymodem.StartOfAll | src/ymrecv.c:215-245 | What has been taken is the start of what was sent |
| LogRecovery.Logs.FindEnd | src/datalog.c:217-243 | A block with its frames that ends the log where it looks; for blocks written in order and then cut, the number of whole ones. It fails only if a read does, and looks at no more blocks than one for each time their number can be halved, and one |
| LogRecovery.AfterStep | src/logfile.c:52-89 | Closing or deleting one log takes it, and no other, from the candidates |
| LogRecovery.VisitNumber | src/logfile.c:91-119 | Visit k is of the candidate numbered k plus the files lost in earlier rounds (failed after their entry was written) |
| LogRecovery.ExactlyOnce | src/logfile.c:91-119 | Each candidate is dealt with exactly once, in order, if and only if no file is lost in a round that leaves candidates to the next |
| LogRecovery.MissedOne | src/logfile.c:91-119 | Otherwise the candidate after the first such round is never visited |
| LogRecovery.AtMostOnce | src/logfile.c:91-119 | Whatever fails, no file is visited twice |
| LogRecovery.OneIsMissed | src/logfile.c:91-119 | Nine empty logs and one error after an entry is written: the ninth is a candidate still, and was never visited |
| LogRecovery.Logs.Gather | src/logfile.c:29-39 | The candidates after those to pass over, eight at most |
| LogRecovery.Logs.RecoverOne | src/logfile.c:52-89 | An in-order log is trimmed to its whole blocks, or deleted if it has none and its first sector is blank; no other file changes. With no I/O error a log whose set is in one sector is dealt with, and any other stays |
| LogRecovery.Logs.Round | src/logfile.c:96-114 | A round's visits are of the files picked when it starts, in order; what is passed over and what was closed are counted |
| LogRecovery.Logs.SettledInEnd | src/logfile.c:91-119 | What a visit without an error did to an in-order log is so at the end of the run |
| LogRecovery.Logs.Recover | src/logfile.c:91-119 | It ends, whatever fails, and its visits are such a run; an error is the listing's, else the result counts the logs closed. Each visit is of a file of that length, with nothing valid, contiguous and of a short name, and every other file stays as it was. With no I/O error each such file is visited exactly once, in order, and every in-order log is trimmed to exactly its whole blocks, and counted |

## Left out

- Signature and certificate parsing of packages (src/sealed.c): a package is what an arbitrary function of block 0 says it is; whether its pages unwrap and open are arbitrary functions too.
- `adopt_blank` is taken as 0, and `upd_adopt` and `upd_mark_broken` called from outside are not part of runs; each package's minimum version is at most its version; the flash callbacks never return ERR_BLOCK_READ_ERROR, to which `install` gives its own meaning; the record's sequence number does not wrap.
- Messages, message buffers and key wiping throughout; AES, SM4, BLAKE2s, curve arithmetic and `redc` in src/monocypher.c.
- Definitions.DefinitionRuns: micro-op sequences without `unext`, whose group can loop without bound, and code that its own stores leave alone; wide instructions (branches, system, API) appear in compiled code as acts of their own, not as items.
- Vm.Group: groups that hold `unext` run again without a bound and are not modelled; nor in Code.Execute.
- Code.Execute: see Vm.Group; the system, user and API instructions are an arbitrary function.
- Returning.TailCall: the call it compares the jump with runs over the same memory; `unext` and system, user and API instructions within the word are outside it, and so in Returning.InsideTwins and Definitions.DefineTail.
- Returning.InsideTwins: see Returning.TailCall.
- Compiler.Compiler.CompExit: `lfAPI_colon` does not clear `lastcall`, so a definition started inside another that was left without an exit is outside these contracts; the dictionary pointer cells are fields of the object.
- The virtual machine's fetch loop with its page lookup, step limits, traps and errors sent to the app; the two-register build of the data stack.
- Cache.Blocks.FindOrAllocate: least recent use is claimed until the 32-bit clock wraps; after that the buffer with the lowest stamp is taken.
- A buffer changed and never marked by `update`: what is then seen of it depends on eviction, so each change in a run is followed by its update.
- The FAT in src/exfat.c: the directory's chain is the sequence of its entries, ending well or with an error; a fragmented file's clusters are an arbitrary function of its first cluster and length; the first allocation bitmap is contiguous or refused. Mounting, and subdirectories beyond the clusters their files own.
- ExfatVolume.Card.Find: a read error is never ERR_FILE_NOT_FOUND; names longer than 255 are refused as in the source.
- ExfatVolume.Card.Create: directories in which everything after the first end-of-directory entry is one too, as section 6.2.1 of the exFAT file system specification has it; elsewhere a set could be written past an end marker that stays.
- Data log records and headers themselves (encryption, tags): a block's frames are an arbitrary function of the file and the block, whole exactly for the blocks written whole.
- LogRecovery.Logs.TrimFile: what exfat_trim and exfat_delete do to the directory, as far as log_recover goes (one file changed, or none); the bitmap they clear is in ExfatVolume.
- ExfatDirectory.VisibleIff: exfat_list also leaves out a set whose name is empty or not all there.
- Ymodem.Receiver.Receive: bytes and CRCs of packets (a packet is one read_packet takes, anything else damage), parsing packet 0 and what it is answered with, and the exchange after block 0 is written.
- Font rendering, layout and lookup in scripts/mkfont.py; src/ymodem.c, src/forth.c, src/blake2s.c, src/iomap.c and src/tools.c.
