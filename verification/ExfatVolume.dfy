/**
 * exFAT's writers and reader (src/exfat.c) on a mounted volume. Sectors are
 * written whole or not at all; any read or write may fail, and a writer that
 * stops at a failed write leaves what a power cut there would.
 */
module ExfatVolume {
  import opened Arithmetic
  import opened ExfatDirectory
  import opened Limbs
  import opened ExfatFiles

  const BITS: nat := 4096                 // bitmap bits in a sector

  const ERR_FILE_NOT_FOUND: int := -38
  const ERR_CREATE_FILE_FAILED: int := -63
  const ERR_DELETE_FILE_FAILED: int := -64
  const ERR_FILE_SIZE_FAILED: int := -66
  const ERR_BLK_PARSE_FAIL: int := -91

  /** A file as exfat_find describes it; `at` is its set's place in the directory. */
  datatype File = File(at: nat, length: nat, valid: nat, first: nat, noFatChain: bool, isDirectory: bool)

  class Card {
    const vol: Volume
    const reliable: bool             // no read or write fails
    const chainErr: int              // how the walk along the root's clusters ends: 0, or broken
    const bitmapErr: int             // 0 if the bitmap's clusters are contiguous
    var bitmap: seq<bool>            // bit k is cluster k + 2
    var dir: Dir                     // the root directory's entries, along its chain
    var cleared: set<nat>            // clusters whose first sector was last written with zeros

    ghost predicate Shaped()
      reads this
    {
      && vol.Ok() && vol.count <= |bitmap| && |bitmap| % BITS == 0 && |dir| % ENTRIES == 0
      && chainErr != ERR_FILE_NOT_FOUND && bitmapErr != ERR_FILE_NOT_FOUND
    }

    ghost predicate Consistent()
      reads this
    {
      Shaped() && Sound(vol, bitmap, dir)
    }

    // ---- sectors -------------------------------------------------------------------------------

    /** Whether a read or write fails, and how: never with ERR_FILE_NOT_FOUND. */
    method Fails() returns (err: int)
      ensures err != ERR_FILE_NOT_FOUND && (reliable ==> err == 0)
    {
      err := *;
      if err == ERR_FILE_NOT_FOUND {
        err := ERR_BLK_PARSE_FAIL;
      }
      if reliable {
        err := 0;
      }
    }

    /** A sector of the bitmap, or of the directory; anything if the read fails. */
    method ReadBits(sector: nat) returns (err: int, buf: seq<bool>)
      requires sector * BITS + BITS <= |bitmap|
      ensures err != ERR_FILE_NOT_FOUND && (reliable ==> err == 0)
      ensures err == 0 ==> buf == bitmap[sector * BITS..sector * BITS + BITS]
    {
      buf := *;
      err := Fails();
      if err == 0 {
        buf := bitmap[sector * BITS..sector * BITS + BITS];
      }
    }

    method ReadEntries(sector: nat) returns (err: int, buf: seq<Entry>)
      requires sector * ENTRIES + ENTRIES <= |dir|
      ensures err != ERR_FILE_NOT_FOUND && (reliable ==> err == 0)
      ensures err == 0 ==> buf == dir[sector * ENTRIES..sector * ENTRIES + ENTRIES]
    {
      buf := *;
      err := Fails();
      if err == 0 {
        buf := dir[sector * ENTRIES..sector * ENTRIES + ENTRIES];
      }
    }

    method WriteBits(sector: nat, bits: seq<bool>) returns (err: int)
      requires |bits| == BITS && sector * BITS + BITS <= |bitmap|
      modifies `bitmap
      ensures bitmap == if err == 0 then old(bitmap)[..sector * BITS] + bits + old(bitmap)[sector * BITS + BITS..]
                        else old(bitmap)
      ensures |bitmap| == |old(bitmap)| && (reliable ==> err == 0)
    {
      err := Fails();
      if err == 0 {
        bitmap := bitmap[..sector * BITS] + bits + bitmap[sector * BITS + BITS..];
      }
    }

    method WriteEntries(sector: nat, entries: seq<Entry>) returns (err: int)
      requires |entries| == ENTRIES && sector * ENTRIES + ENTRIES <= |dir|
      modifies `dir
      ensures dir == if err == 0 then old(dir)[..sector * ENTRIES] + entries + old(dir)[sector * ENTRIES + ENTRIES..]
                     else old(dir)
      ensures |dir| == |old(dir)| && (reliable ==> err == 0)
    {
      err := Fails();
      if err == 0 {
        dir := dir[..sector * ENTRIES] + entries + dir[sector * ENTRIES + ENTRIES..];
      }
    }

    /** The first sector of a cluster nobody owns is written with zeros. */
    method ClearFirst(c: nat) returns (err: int)
      requires vol.Ok() && Unowned(vol, dir, {c})
      modifies `cleared
      ensures err == 0 ==> c in cleared
      ensures reliable ==> err == 0
    {
      err := Fails();
      if err == 0 {
        cleared := cleared + {c};
      }
    }

    // ---- the bitmap ------------------------------------------------------------------------------

    /** bitmap_mark: sets or clears n bits from that of cluster `first`, a sector at a time. */
    method BitmapMark(first: nat, n: nat, value: bool) returns (err: int, ghost done: nat)
      requires Shaped() && 2 <= first && (n == 0 || first + n <= vol.count + 2)
      modifies `bitmap
      ensures Shaped() && |bitmap| == |old(bitmap)| && done <= n && (err == 0 ==> done == n) && (reliable ==> err == 0)
      ensures forall k :: 0 <= k < |bitmap| ==>
                bitmap[k] == if first - 2 <= k < first - 2 + done then value else old(bitmap)[k]
    {
      var bit, end := first - 2, first - 2 + n;
      done := 0;
      err := 0;
      while bit < end
        invariant Shaped() && |bitmap| == |old(bitmap)| && first - 2 <= bit <= end && done == bit - (first - 2) && err == 0
        invariant forall k :: 0 <= k < |bitmap| ==>
                    bitmap[k] == if first - 2 <= k < bit then value else old(bitmap)[k]
      {
        var sector := bit / BITS;
        var base := sector * BITS;
        SectorInside(sector, bit, |bitmap|);
        var buf, stop;
        err, buf := ReadBits(sector);
        if err != 0 {
          return;
        }
        ghost var from := bitmap;
        stop, buf := FillBits(buf, base, bit, end, value);
        err := WriteBits(sector, buf);
        if err != 0 {
          return;
        }
        MarkStep(old(bitmap), from, base, buf, bitmap, first - 2, bit, stop, value);
        bit := stop;
        done := bit - (first - 2);
      }
    }

    /** The loop over one sector's bits. */
    method FillBits(buf: seq<bool>, base: nat, at: nat, end: nat, value: bool) returns (bit: nat, filled: seq<bool>)
      requires |buf| == BITS && base <= at < end && at < base + BITS
      ensures at < bit <= end && bit <= base + BITS && (bit == end || bit == base + BITS) && |filled| == BITS
      ensures forall i :: 0 <= i < BITS ==> filled[i] == if at <= base + i < bit then value else buf[i]
    {
      bit, filled := at, buf;
      while bit < end && bit < base + BITS
        invariant at <= bit <= end && bit <= base + BITS && |filled| == BITS
        invariant forall i :: 0 <= i < BITS ==> filled[i] == if at <= base + i < bit then value else buf[i]
      {
        filled := filled[bit - base := value];
        bit := bit + 1;
      }
    }

    /** One bit; a new sector is read. */
    method ReadBit(bit: nat, had: seq<bool>) returns (err: int, buf: seq<bool>, used: bool)
      requires Shaped() && bit < vol.count && (bit % BITS != 0 ==> Loaded(bitmap, bit, had))
      ensures err != ERR_FILE_NOT_FOUND && (reliable ==> err == 0)
      ensures err == 0 ==> used == bitmap[bit] && ((bit + 1) % BITS != 0 ==> Loaded(bitmap, bit + 1, buf))
    {
      err, buf, used := 0, had, false;
      SectorInside(bit / BITS, bit, |bitmap|);
      if bit % BITS == 0 {
        err, buf := ReadBits(bit / BITS);
      }
      if err == 0 {
        used := buf[bit % BITS];
        SameSector(bitmap, bit, buf);
      }
    }

    /** find_free: the lowest run of n free clusters. */
    method FindFree(n: nat) returns (err: int, first: nat)
      requires Shaped() && n > 0
      ensures err != ERR_FILE_NOT_FOUND
      ensures err == 0 ==> FreeRun(bitmap, vol.count, first - 2, n) && first >= 2
      ensures err == 0 ==> forall b :: 0 <= b < first - 2 ==> !FreeRun(bitmap, vol.count, b, n)
      ensures reliable ==> (err == 0 <==> exists b :: FreeRun(bitmap, vol.count, b, n))
      ensures reliable ==> err == 0 || err == ERR_CREATE_FILE_FAILED
    {
      hide Loaded, FreeRun;
      var run, at, buf := 0, 0, [];
      first := 2;
      for bit := 0 to vol.count
        invariant run <= bit && run < n && (run > 0 ==> at == bit - run)
        invariant bit % BITS != 0 ==> Loaded(bitmap, bit, buf)
        invariant forall k :: bit - run <= k < bit ==> !bitmap[k]
        invariant bit - run == 0 || bitmap[bit - run - 1]
        invariant forall b :: 0 <= b && b + n <= bit ==> !FreeRun(bitmap, vol.count, b, n)
      {
        var used;
        err, buf, used := ReadBit(bit, buf);
        if err != 0 {
          return;
        }
        if used {
          run := 0;
        } else {
          if run == 0 {
            at := bit;
          }
          run := run + 1;
          if run == n {
            NoneBefore(bitmap, vol.count, at, n);
            RunFound(bitmap, vol.count, at, n);
            return 0, at + 2;
          }
        }
        RunTooShort(bitmap, vol.count, bit + 1, run, n);
      }
      RunsInside(bitmap, vol.count, n);
      err := ERR_CREATE_FILE_FAILED;
    }

    // ---- finding a file ------------------------------------------------------------------------

    /** dir_entry: the entry at j, if there is one. A new sector is read. */
    method Look(j: nat) returns (err: int, present: bool, e: Entry)
      requires j <= |dir|
      ensures err != ERR_FILE_NOT_FOUND && (reliable ==> err == 0)
      ensures (present <==> err == 0 && j < |dir|) && (present ==> e == dir[j])
    {
      err, present, e := 0, false, *;
      if j < |dir| {
        if j % ENTRIES == 0 {
          err := Fails();
        }
        present := err == 0;
        if present {
          e := dir[j];
        }
      }
    }

    /** dir_advance: past the last entry, the chain may be broken. */
    method Advance(j: nat) returns (err: int)
      requires Shaped() && j < |dir|
      ensures err != ERR_FILE_NOT_FOUND && (err == 0 && j + 1 == |dir| ==> chainErr == 0)
      ensures reliable ==> err == if j + 1 == |dir| then chainErr else 0
    {
      err := 0;
      if (j + 1) % ENTRIES == 0 {
        err := Fails();
      }
      if err == 0 && j + 1 == |dir| {
        err := chainErr;
      }
    }

    /** The characters of one name entry, counted and compared. */
    method CountChars(e: Entry, had: nat, nameLen: nat, same: nat, name: seq<u8>, ghost before: seq<nat>)
      returns (chars: nat, matched: nat)
      requires had == |before| <= nameLen && same == CountSame(before, name)
      ensures chars == had + Min(15, nameLen - had)
      ensures matched == CountSame(before + EntryChars(e)[..Min(15, nameLen - had)], name)
    {
      hide EntryChars;
      var j := 0;
      chars, matched := had, same;
      assert before + EntryChars(e)[..0] == before;
      while j < 15 && chars < nameLen
        invariant 0 <= j <= 15 && chars == had + j <= nameLen
        invariant matched == CountSame(before + EntryChars(e)[..j], name)
      {
        var c := EntryChars(e)[j];
        OneMoreChar(before + EntryChars(e)[..j], c, name);
        assert before + EntryChars(e)[..j] + [c] == before + EntryChars(e)[..j + 1];
        if chars < |name| && Upper(c) == Upper(name[chars]) {
          matched := matched + 1;
        }
        j, chars := j + 1, chars + 1;
      }
    }

    /** How a walk that comes to the end of the entries ends if it should not have. */
    function WalkErr(): int
      reads this
    {
      if chainErr != 0 then chainErr else ERR_BLK_PARSE_FAIL
    }

    /** An entry set at i: is it whole, and is it the file called name? j is where the scan stopped. */
    method ScanSet(i: nat, first: Entry, name: seq<u8>) returns (err: int, taken: bool, found: bool, j: nat)
      requires Shaped() && i < |dir| && first == dir[i] && Starts(first)
      ensures err != ERR_FILE_NOT_FOUND
      ensures err == 0 ==> (taken <==> Whole(dir, i)) && j < |dir|
      ensures err == 0 ==> Next(dir, i) == if taken then j + 1 else j
      ensures err == 0 ==> (found <==> Valid(dir, i) && Matches(dir, i, name))
      ensures reliable ==> (err != 0 <==> CutOff(dir, i)) && (err != 0 ==> err == WalkErr())
    {
      hide EntryChars, SetSum, Sum16, CountSame, HashOf, Parts, Valid, Whole, Next, CutOff;
      var count := first[1];
      NoParts(dir, i);
      var sum := Sum16(Sum16(0, first[..2]), first[4..]);
      SumStart(dir, i);
      var k, nameLen, hash, chars, matched := 1, 0, 0, 0, 0;
      CountNone(name);
      taken, found, j, err := true, false, i, 0;
      while k <= count
        invariant 1 <= k <= count + 1 && j == i + k - 1 < |dir| && taken && err == 0
        invariant Parts(dir, i, k - 1) == k - 1 && sum == SetSum(dir, i, k - 1)
        invariant k > 1 ==> nameLen == dir[i + 1][3] && hash == LeVal(dir[i + 1][4..6])
        invariant chars == |CharsTo(dir, i, k - 1, nameLen)| && matched == CountSame(CharsTo(dir, i, k - 1, nameLen), name)
      {
        err := Advance(j);
        SetStops(dir, i, k);
        if err != 0 {
          return;
        }
        var present, e;
        err, present, e := Look(j + 1);
        if !present {
          err := if err != 0 then err else ERR_BLK_PARSE_FAIL;
          return;
        }
        j := j + 1;
        if !Secondary(e) || (k == 1 && e[0] != T_STREAM) {
          taken := false;
          return;
        }
        sum := Sum16(sum, e);
        SumStep(dir, i, k);
        if k == 1 {
          nameLen, hash := e[3], LeVal(e[4..6]);
        } else if e[0] == T_NAME {
          chars, matched := CountChars(e, chars, nameLen, matched, name, CharsTo(dir, i, k - 1, nameLen));
        }
        k := k + 1;
      }
      found := sum == Stored(first) && nameLen == |name| && hash == HashOf(name) && matched == |name|;
      SetWhole(dir, i);
      if nameLen == |name| {
        CountAll(CharsTo(dir, i, count, nameLen), name);
      }
    }

    /** file_extent: the clusters must lie in the volume. A FAT chain is followed, which may fail to read. */
    method FileExtent(i: nat) returns (err: int)
      requires Shaped() && i + 1 < |dir|
      ensures err != ERR_FILE_NOT_FOUND && (err == 0 ==> ExtentOk(vol, dir[i + 1]))
      ensures reliable ==> err == if ExtentOk(vol, dir[i + 1]) then 0 else ERR_BLK_PARSE_FAIL
    {
      var s := dir[i + 1];
      if ValidLength(s) > Length(s) {
        return ERR_BLK_PARSE_FAIL;
      }
      if First(s) == 0 {
        return if Length(s) == 0 then 0 else ERR_BLK_PARSE_FAIL;
      }
      var n := ClustersIn(vol, Length(s));
      InVolumeIff(vol, First(s), Length(s));
      if n == 0 || First(s) < 2 || First(s) - 2 >= vol.count || n > vol.count - (First(s) - 2) {
        return ERR_BLK_PARSE_FAIL;
      }
      if NoFatChain(s) {
        return 0;
      }
      err := Fails();
    }

    /**
     * exfat_find in the root directory: the first set of that name. Undisturbed,
     * it fails only if there is none, or its clusters are not in the volume.
     */
    method Find(name: seq<u8>) returns (err: int, file: File)
      requires Shaped()
      ensures err == 0 ==> FirstMatch(dir, file.at, name) && Describes(dir, file) && ExtentOk(vol, dir[file.at + 1])
      ensures err == ERR_FILE_NOT_FOUND && 0 < |name| <= 255 ==> NoMatch(dir, name)
      ensures |name| == 0 || |name| > 255 ==> err == ERR_FILE_NOT_FOUND
      ensures reliable && 0 < |name| <= 255 ==>
                (err == 0 <==> exists k: nat :: FirstMatch(dir, k, name) && ExtentOk(vol, dir[k + 1]))
      ensures reliable && 0 < |name| <= 255 && NoMatch(dir, name) ==>
                err == if Closes(dir, 0, chainErr) then ERR_FILE_NOT_FOUND else WalkErr()
      ensures reliable && 0 < |name| <= 255 && !NoMatch(dir, name) ==> err == 0 || err == ERR_BLK_PARSE_FAIL
    {
      hide Matches, Valid, ExtentOk, Shaped, NoFatChain, First, Length, ValidLength, CutOff;
      file := File(0, 0, 0, 0, false, false);
      if |name| == 0 || |name| > 255 {
        return ERR_FILE_NOT_FOUND, file;
      }
      var i := 0;
      ghost var seen: set<nat> := {};
      assert Visible(dir) == seen + VisibleFrom(dir, i);
      while true
        invariant i <= |dir| && Shaped()
        invariant Visible(dir) == seen + VisibleFrom(dir, i)
        invariant forall k :: k in seen ==> k < i && !Matches(dir, k, name)
        invariant Closes(dir, 0, chainErr) <==> Closes(dir, i, chainErr)
        decreases |dir| - i
      {
        var present, e;
        err, present, e := Look(i);
        if !present {
          err := if err != 0 then err else ERR_FILE_NOT_FOUND;
          return;
        }
        if e[0] == T_END {
          return ERR_FILE_NOT_FOUND, file;
        }
        var found, next;
        err, found, next := Examine(i, e, name);
        if found {
          assert i in Visible(dir);
          VisibleIsValid(dir, i);
          OnlyFirst(dir, i, name);
          err := FileExtent(i);
          file := Description(dir, i);
          return;
        }
        if err != 0 {
          if reliable { NextPastAll(dir, i, name); }
          return;
        }
        seen := if Valid(dir, i) then seen + {i} else seen;
        i := next;
      }
    }

    /** One turn of the walk. */
    method Examine(i: nat, e: Entry, name: seq<u8>) returns (err: int, found: bool, next: nat)
      requires Shaped() && i < |dir| && e == dir[i]
      ensures err != ERR_FILE_NOT_FOUND
      ensures found ==> err == 0 && Valid(dir, i) && Matches(dir, i, name)
      ensures !found && (err == 0 || reliable) ==> !Valid(dir, i) || !Matches(dir, i, name)
      ensures !found && err == 0 ==> next == Next(dir, i) <= |dir|
      ensures !found && err == 0 ==> !CutOff(dir, i) && (Next(dir, i) == |dir| ==> chainErr == 0)
      ensures !found && err != 0 && reliable ==> Next(dir, i) == |dir| && (CutOff(dir, i) || chainErr != 0) && err == WalkErr()
      ensures Next(dir, i) <= |dir|
    {
      hide Valid, Matches;
      found, next := false, i + 1;
      PartsInside(dir, i, dir[i][1]);
      if !Starts(e) {
        NotStarting(dir, i);
        err := Advance(i);
        return;
      }
      var taken;
      err, taken, found, next := ScanSet(i, e, name);
      if err != 0 {
        found := false;
        NotCutOff(dir, i);
        return;
      }
      if !found && taken {
        err := Advance(next);
        next := next + 1;
      }
    }

    // ---- creating a file -----------------------------------------------------------------------

    /** Three entries not in use in one sector: the first there are. */
    method FindSlot() returns (err: int, slot: Scan)
      requires Shaped() && Ended(dir)
      ensures err != ERR_FILE_NOT_FOUND
      ensures err == 0 ==> SlotFound(dir, slot)
      ensures reliable ==> (err == 0 <==> exists r: nat :: SlotAt(dir, r))
      ensures reliable ==> err == 0 || err == if chainErr != 0 && dir != [] then chainErr else ERR_CREATE_FILE_FAILED
    {
      hide Shaped, Ended;
      err, slot := 0, Scan(0, 0, false, 0);
      var i := 0;
      ScanStart(dir);
      while true
        invariant i <= |dir| && Shaped() && Scanning(dir, i, slot) && (0 < i == |dir| ==> chainErr == 0)
        decreases |dir| - i
      {
        var present, e;
        err, present, e := Look(i);
        if !present {
          err := if err != 0 then err else ERR_CREATE_FILE_FAILED;
          return;
        }
        slot := ScanOne(i, e, slot);
        if slot.run == 3 {
          assert SlotAt(dir, slot.p);
          return;
        }
        err := Advance(i);
        if err != 0 {
          return;
        }
        i := i + 1;
      }
    }

    method ScanOne(i: nat, e: Entry, slot: Scan) returns (next: Scan)
      requires Ended(dir) && i < |dir| && e == dir[i] && Scanning(dir, i, slot)
      ensures if next.run == 3 then SlotFound(dir, next) else Scanning(dir, i + 1, next)
    {
      var run, p, ended, q := slot.run, slot.p, slot.ended, slot.q;
      if i % ENTRIES == 0 {
        run := 0;
      }
      if e[0] == T_END && !ended {
        ended, q := true, i;
      }
      if InUse(e) {
        run := 0;
      } else {
        if run == 0 {
          p := i;
        }
        run := run + 1;
      }
      next := Scan(run, p, ended, q);
    }

    /** The end-of-directory entries from q to its sector's end become unused ones. */
    method MoveEnd(q: nat) returns (err: int)
      requires Consistent() && q < |dir| && dir[q][0] == T_END && NoEnd(dir, q)
      requires q / ENTRIES * ENTRIES + ENTRIES < |dir|
      modifies `dir
      ensures Consistent() && |dir| == |old(dir)|
      ensures AllKept(old(dir), dir) && NoneNew(old(dir), dir) && SlotOnly(old(dir), dir, 0, 0)
      ensures err == 0 ==> NoEnd(dir, q / ENTRIES * ENTRIES + ENTRIES)
      ensures reliable ==> err == 0
      ensures forall k :: 0 <= k < |dir| && !(q <= k < q / ENTRIES * ENTRIES + ENTRIES) ==> dir[k] == old(dir)[k]
    {
      var sector := q / ENTRIES;
      ghost var base := sector * ENTRIES;
      var buf;
      err, buf := ReadEntries(sector);
      if err != 0 {
        KeptSelf(dir);
        return;
      }
      var i := q % ENTRIES;
      while i < ENTRIES
        invariant q % ENTRIES <= i <= ENTRIES && |buf| == ENTRIES
        invariant forall k :: 0 <= k < ENTRIES ==>
                    if q % ENTRIES <= k < i then buf[k] == UnusedEntry() else buf[k] == dir[base + k]
      {
        if buf[i][0] == T_END {
          buf := buf[i := UnusedEntry()];
        }
        i := i + 1;
      }
      ghost var from := dir;
      err := WriteEntries(sector, buf);
      if err == 0 {
        Moved(from, dir, q, base, buf);
        KeptByChange(from, dir, q);
        SetReplaced(vol, bitmap, from, dir, q);
      } else {
        KeptSelf(dir);
      }
    }

    /** The entry set is written, its sector whole. */
    method WriteSet(p: nat, set3: seq<Entry>) returns (err: int)
      requires Shaped() && p + 3 <= |dir| && p % ENTRIES <= ENTRIES - 3 && |set3| == 3
      modifies `dir
      ensures |dir| == |old(dir)|
      ensures if err != 0 then dir == old(dir)
              else dir[p..p + 3] == set3 && forall k :: 0 <= k < |dir| && !(p <= k < p + 3) ==> dir[k] == old(dir)[k]
      ensures reliable ==> err == 0
    {
      var sector, index := p / ENTRIES, p % ENTRIES;
      ghost var base := sector * ENTRIES;
      EntrySector(p, |dir|);
      var buf;
      err, buf := ReadEntries(sector);
      if err != 0 {
        return;
      }
      buf := buf[..index] + set3 + buf[index + 3..];
      ghost var from := dir;
      err := WriteEntries(sector, buf);
      if err == 0 {
        Respliced(from, dir, base, index, set3, buf);
      }
    }

    /** exfat_create has what it needs: a good name that is free, a run of clusters, three entries, sound chains. */
    ghost predicate CanCreate(name: seq<u8>, bytes: nat)
      requires vol.Ok()
      reads this
    {
      && NameOk(name) && bytes > 0 && NoMatch(dir, name)
      && (exists r: nat :: SlotAt(dir, r)) && RunWithRoom(vol, bitmap, bytes)
      && Closes(dir, 0, chainErr) && bitmapErr == 0
    }

    /**
     * exfat_create. Wherever it stops the volume is sound and every file is seen
     * as before; only a success shows the new one, and undisturbed it succeeds if it can.
     */
    method Create(name: seq<u8>, bytes: nat, timestamp: nat) returns (err: int, file: File)
      requires Consistent() && bytes < Pow256(8)
      modifies `bitmap, `dir, `cleared
      ensures Consistent()
      ensures |dir| == |old(dir)| && AllKept(old(dir), dir)
      ensures err != 0 ==> NoneNew(old(dir), dir)
      ensures SlotOnly(old(dir), dir, file.at, if err == 0 then 3 else 0)
      ensures err == 0 ==> Created(old(dir), dir, file, name, bytes)
      ensures err == 0 ==> Owned(vol, dir, file.at) == Extent(file.first, ClustersIn(vol, bytes)) && file.first in cleared
      ensures err == 0 ==> Holds(vol, Owned(vol, dir, file.at), bytes) && FreshFile(dir[file.at], timestamp)
      ensures err == 0 ==> forall c :: c in Owned(vol, dir, file.at) ==> !Marked(vol, old(bitmap), c)
      ensures err == 0 ==> NameOk(name) && bytes > 0 && NoMatch(old(dir), name)
      ensures reliable ==> (err == 0 <==> old(CanCreate(name, bytes)))
      ensures !NameOk(name) || bytes == 0 ==> err == ERR_CREATE_FILE_FAILED
      ensures reliable && NameOk(name) && bytes > 0 && !NoMatch(old(dir), name) ==>
                err == ERR_CREATE_FILE_FAILED || err == ERR_BLK_PARSE_FAIL
      ensures reliable && NameOk(name) && bytes > 0 && NoMatch(old(dir), name) ==>
                err == old(CreateErr(bytes))
    {
      hide Matches, FreeRun, SlotFound, Closes, NewSet;
      file := File(0, 0, 0, 0, false, false);
      KeptSelf(dir);
      if !NameOk(name) || bytes == 0 {
        return ERR_CREATE_FILE_FAILED, file;
      }
      err, file := Find(name);
      if err == 0 {
        return ERR_CREATE_FILE_FAILED, file;
      }
      if err != ERR_FILE_NOT_FOUND {
        return;
      }
      err, file := CreateNew(name, bytes, timestamp);
    }

    /** What keeps exfat_create from making a file of a good name that is free, in the order it is found out. */
    ghost function CreateErr(bytes: nat): int
      requires vol.Ok()
      reads this
    {
      if !Closes(dir, 0, chainErr) then WalkErr() else RoomErr(bytes)
    }

    ghost function RoomErr(bytes: nat): int
      requires vol.Ok()
      reads this
    {
      if !RoomFor(vol, bytes, vol.count) then ERR_CREATE_FILE_FAILED
      else if bitmapErr != 0 then ERR_BLK_PARSE_FAIL
      else if !(exists r: nat :: SlotAt(dir, r)) then (if chainErr != 0 && dir != [] then chainErr else ERR_CREATE_FILE_FAILED)
      else if !RunWithRoom(vol, bitmap, bytes) then ERR_CREATE_FILE_FAILED
      else 0
    }

    /** The rest of exfat_create, for a name that is free. */
    method CreateNew(name: seq<u8>, bytes: nat, timestamp: nat) returns (err: int, file: File)
      requires Consistent() && 0 < bytes < Pow256(8) && NameOk(name) && NoMatch(dir, name)
      modifies `bitmap, `dir, `cleared
      ensures Consistent()
      ensures |dir| == |old(dir)| && AllKept(old(dir), dir)
      ensures err != 0 ==> NoneNew(old(dir), dir)
      ensures SlotOnly(old(dir), dir, file.at, if err == 0 then 3 else 0)
      ensures err == 0 ==> Created(old(dir), dir, file, name, bytes)
      ensures err == 0 ==> Owned(vol, dir, file.at) == Extent(file.first, ClustersIn(vol, bytes)) && file.first in cleared
      ensures err == 0 ==> Holds(vol, Owned(vol, dir, file.at), bytes) && FreshFile(dir[file.at], timestamp)
      ensures err == 0 ==> forall c :: c in Owned(vol, dir, file.at) ==> !Marked(vol, old(bitmap), c)
      ensures reliable ==> (err == 0 <==> (exists r: nat :: SlotAt(old(dir), r)) && bitmapErr == 0
                                          && RunWithRoom(vol, old(bitmap), bytes))
      ensures reliable ==> err == old(RoomErr(bytes))
    {
      file := File(0, 0, 0, 0, false, false);
      KeptSelf(dir);
      var n := ClustersIn(vol, bytes);
      RunWithRoomIff(vol, bitmap, bytes);
      RoomIff(vol, bytes, vol.count);
      if n > vol.count {
        return ERR_CREATE_FILE_FAILED, file;
      }
      err := Fails();
      if err != 0 || bitmapErr != 0 {
        return ERR_BLK_PARSE_FAIL, file;
      }
      var slot;
      err, slot := FindSlot();
      if err != 0 {
        return;
      }
      SomeClusters(vol, bytes);
      var first;
      err, first := FindFree(n);
      if err != 0 {
        return;
      }
      err, file := Build(name, bytes, timestamp, first, slot);
    }

    /** The writes of exfat_create, in their order. */
    method Build(name: seq<u8>, bytes: nat, timestamp: nat, first: nat, slot: Scan) returns (err: int, file: File)
      requires Consistent() && 0 < bytes < Pow256(8) && NameOk(name) && SlotFound(dir, slot)
      requires first >= 2 && FreeRun(bitmap, vol.count, first - 2, ClustersIn(vol, bytes))
      requires NoMatch(dir, name)
      modifies `bitmap, `dir, `cleared
      ensures Consistent()
      ensures |dir| == |old(dir)| && AllKept(old(dir), dir)
      ensures err != 0 ==> NoneNew(old(dir), dir)
      ensures SlotOnly(old(dir), dir, file.at, if err == 0 then 3 else 0)
      ensures err == 0 ==> Created(old(dir), dir, file, name, bytes)
      ensures err == 0 ==> Owned(vol, dir, file.at) == Extent(file.first, ClustersIn(vol, bytes)) && file.first in cleared
      ensures err == 0 ==> Holds(vol, Owned(vol, dir, file.at), bytes) && FreshFile(dir[file.at], timestamp)
      ensures err == 0 ==> forall c :: c in Owned(vol, dir, file.at) ==> !Marked(vol, old(bitmap), c)
      ensures reliable ==> err == 0
    {
      var n := ClustersIn(vol, bytes);
      ghost var cs, before := Extent(first, n), dir;
      file := File(slot.p, bytes, 0, first, true, false);
      RunUnowned(vol, bitmap, dir, first, n);
      KeptSelf(dir);
      err := MarkAndClear(first, n);
      if err != 0 {
        return;
      }
      err := MakeWay(slot);
      if err != 0 {
        return;
      }
      ghost var between := dir;
      UnownedStill(vol, before, between, cs);
      assert err == 0 && FreeThree(between, slot.p);
      err := AddSet(slot.p, name, bytes, timestamp, first);
      if err == 0 {
        KeptTwice(before, between, dir, slot.p);
        NamesApart(before, between, dir, slot.p, name);
        ExtentHolds(vol, first, bytes);
        SlotWritten(before, between, dir, slot.p);
      }
    }

    /** The bitmap's bits are set first, then the file's first sector cleared. */
    method MarkAndClear(first: nat, n: nat) returns (err: int)
      requires Consistent() && first >= 2 && n > 0 && FreeRun(bitmap, vol.count, first - 2, n)
      requires Unowned(vol, dir, Extent(first, n))
      modifies `bitmap, `cleared
      ensures Consistent()
      ensures err == 0 ==> AllMarked(vol, bitmap, Extent(first, n)) && first in cleared
      ensures reliable ==> err == 0
    {
      ghost var done;
      ghost var from := bitmap;
      err, done := BitmapMark(first, n, true);
      BitmapChanged(vol, from, bitmap, dir, Extent(first, n));
      if err != 0 {
        return;
      }
      UnownedLess(vol, dir, Extent(first, n), {first});
      err := ClearFirst(first);
    }

    /** If the set goes past the end's sector, the end moves first. */
    method MakeWay(slot: Scan) returns (err: int)
      requires Consistent() && SlotFound(dir, slot)
      modifies `dir
      ensures Consistent() && |dir| == |old(dir)|
      ensures AllKept(old(dir), dir) && NoneNew(old(dir), dir) && SlotOnly(old(dir), dir, 0, 0)
      ensures err == 0 ==> NoEnd(dir, slot.p) && FreeThree(dir, slot.p)
      ensures reliable ==> err == 0
    {
      KeptSelf(dir);
      var p, q := slot.p, slot.q;
      if slot.ended && q / ENTRIES != p / ENTRIES {
        SlotAfterEnd(dir, slot);
        err := MoveEnd(q);
      } else {
        err := 0;
      }
    }

    /** The set is written in its three entries. */
    method AddSet(p: nat, name: seq<u8>, bytes: nat, timestamp: nat, first: nat) returns (err: int)
      requires Consistent() && NoEnd(dir, p) && FreeThree(dir, p) && p % ENTRIES <= ENTRIES - 3
      requires NameOk(name) && bytes < Pow256(8) && 2 <= first < vol.count + 2
      requires Unowned(vol, dir, Extent(first, ClustersIn(vol, bytes)))
      requires AllMarked(vol, bitmap, Extent(first, ClustersIn(vol, bytes)))
      modifies `dir
      ensures Consistent() && |dir| == |old(dir)|
      ensures if err != 0 then dir == old(dir)
              else OthersKept(old(dir), dir, p) && p in Visible(dir) && p !in Visible(old(dir))
                   && Matches(dir, p, name) && Describes(dir, File(p, bytes, 0, first, true, false)) && FreshFile(dir[p], timestamp)
                   && Owned(vol, dir, p) == Extent(first, ClustersIn(vol, bytes))
      ensures forall k :: 0 <= k < |dir| && !(p <= k < p + 3) ==> dir[k] == old(dir)[k]
      ensures reliable ==> err == 0
    {
      hide Matches, Owned, NewSet, Visible, Valid;
      ghost var from := dir;
      err := WriteSet(p, NewSet(name, bytes, timestamp, first));
      if err != 0 {
        return;
      }
      SetAppears(vol, from, dir, p, name, bytes, timestamp, first);
      SetReplaced(vol, bitmap, from, dir, p);
    }

    /** A file created is the one found by its name, in whatever case. */
    method CreateThenFind(name: seq<u8>, bytes: nat, timestamp: nat, asked: seq<u8>)
      returns (created: int, file: File, err: int, found: File)
      requires Consistent() && bytes < Pow256(8) && SameUpper(asked, name)
      modifies `bitmap, `dir, `cleared
      ensures Consistent()
      ensures created == 0 && err == 0 ==> found == file
      ensures reliable ==> (created == 0 <==> old(CanCreate(name, bytes))) && (created == 0 ==> err == 0)
    {
      hide Matches, Valid, Owned, Marked, FreeRun, SameUpper, Closes, Sound, Visible, CanCreate, Length, First, NoFatChain;
      created, file := Create(name, bytes, timestamp);
      err, found := Find(asked);
      if created == 0 {
        CreatedIsFirst(vol, bitmap, dir, file, name, asked, bytes);
      }
    }

    // ---- trimming and deleting ---------------------------------------------------------------------

    /** The checks both make: a set in one sector, unchanged since it was found. */
    method CheckSet(file: File) returns (err: int, same: bool)
      requires Shaped() && file.at < |dir|
      ensures reliable ==> err == 0
      ensures err == 0 ==> (same <==> Unchanged(dir, file))
    {
      hide SetSum;
      same := false;
      var index := file.at % ENTRIES;
      EntrySector(file.at, |dir|);
      var buf;
      err, buf := ReadEntries(file.at / ENTRIES);
      if err != 0 {
        return;
      }
      var e := buf[index];
      assert e == dir[file.at];
      var count: nat := e[1];
      if e[0] == T_FILE && count >= 2 && index * 32 + (count + 1) * 32 <= 512 {
        InBuffer(dir, file.at, buf, index, count);
        same := Stored(e) == SetSum(buf, index, count)
                && First(buf[index + 1]) == file.first && Length(buf[index + 1]) == file.length;
      }
    }

    /** Clear n bits from `first` on, which no file has now. */
    method Release(first: nat, n: nat) returns (err: int)
      requires Consistent() && 2 <= first && (n == 0 || first + n <= vol.count + 2) && Unowned(vol, dir, Extent(first, n))
      modifies `bitmap
      ensures Consistent() && |bitmap| == |old(bitmap)|
      ensures err == 0 ==> forall c :: c in Extent(first, n) ==> !Marked(vol, bitmap, c)
      ensures reliable ==> err == if bitmapErr == 0 then 0 else ERR_BLK_PARSE_FAIL
      ensures forall c: nat :: c !in Extent(first, n) ==> (Marked(vol, bitmap, c) <==> Marked(vol, old(bitmap), c))
    {
      err := Fails();
      if err != 0 || bitmapErr != 0 {
        return ERR_BLK_PARSE_FAIL;
      }
      ghost var done;
      ghost var from := bitmap;
      err, done := BitmapMark(first, n, false);
      BitmapChanged(vol, from, bitmap, dir, Extent(first, n));
    }

    /** What looks like a file's set is one the readers see, with clusters as the file says. */
    ghost predicate Trusted(file: File)
      reads this
    {
      && file.at < |dir|
      && (LooksWhole(dir, file.at) ==> file.at in Visible(dir) && (file.noFatChain ==> NoFatChain(dir[file.at + 1])))
    }

    ghost predicate CanTrim(file: File, bytes: nat)
      requires vol.Ok() && file.at < |dir|
      reads this
    {
      && file.noFatChain && 0 < bytes <= file.length && file.first >= 2 && Unchanged(dir, file)
      && (FewerHold(vol, bytes, file.length) ==> bitmapErr == 0)
    }

    /**
     * exfat_trim: the set first, then the bitmap. Wherever it stops the volume is
     * sound, every other file is as before, and this one has its old length or its
     * new. Undisturbed it succeeds if the file is one it can trim, not changed since.
     */
    method Trim(file: File, bytes: nat, timestamp: nat) returns (err: int, trimmed: File)
      requires Consistent() && Trusted(file) && file.length < Pow256(8)
      modifies `dir, `bitmap
      ensures Consistent() && |dir| == |old(dir)| && OthersKept(old(dir), dir, file.at)
      ensures file.at in Visible(dir) <==> file.at in Visible(old(dir))
      ensures dir == old(dir) || (IsTrimmed(old(dir), dir, file.at, bytes) && file.at in Visible(dir))
      ensures err == 0 ==> IsTrimmed(old(dir), dir, file.at, bytes) && trimmed == file.(length := bytes, valid := bytes)
      ensures err == 0 ==> Holds(vol, Owned(vol, old(dir), file.at), file.length) && Holds(vol, Owned(vol, dir, file.at), bytes)
      ensures err == 0 ==> TimeAt(dir[file.at], 12, timestamp)
      ensures err == 0 ==> forall c :: c in Owned(vol, old(dir), file.at) - Owned(vol, dir, file.at) ==> !Marked(vol, bitmap, c)
      ensures forall c: nat :: c !in Owned(vol, old(dir), file.at) ==> (Marked(vol, bitmap, c) <==> Marked(vol, old(bitmap), c))
      ensures reliable ==> (err == 0 <==> old(CanTrim(file, bytes)))
      ensures reliable && err != 0 ==>
                err == if file.noFatChain && 0 < bytes <= file.length && file.first >= 2 && Unchanged(old(dir), file)
                       then ERR_BLK_PARSE_FAIL else ERR_FILE_SIZE_FAILED
    {
      hide SetSum, Owned, Marked, IsTrimmed, VisibleFrom, Sound;
      trimmed := file;
      KeptBySelf(dir, file.at);
      if !file.noFatChain || bytes == 0 || bytes > file.length || file.first < 2 {
        return ERR_FILE_SIZE_FAILED, trimmed;
      }
      var same;
      err, same := CheckSet(file);
      if err != 0 || !same {
        return if err != 0 then err else ERR_FILE_SIZE_FAILED, trimmed;
      }
      VisibleIsValid(dir, file.at);
      StreamNext(dir, file.at);
      if dir[file.at + 1][0] != T_STREAM {
        return ERR_FILE_SIZE_FAILED, trimmed;
      }
      var written;
      err, written := TrimChecked(file, bytes, timestamp);
      if written {
        trimmed := file.(length := bytes, valid := bytes);
      }
    }

    method TrimChecked(file: File, bytes: nat, timestamp: nat) returns (err: int, written: bool)
      requires Consistent() && file.at in Visible(dir) && Valid(dir, file.at) && OneSector(dir, file.at)
      requires NoFatChain(dir[file.at + 1]) && 0 < bytes <= file.length < Pow256(8) && file.first >= 2
      requires First(dir[file.at + 1]) == file.first && Length(dir[file.at + 1]) == file.length
      modifies `dir, `bitmap
      ensures Consistent() && |dir| == |old(dir)| && OthersKept(old(dir), dir, file.at) && file.at in Visible(dir)
      ensures reliable ==> (err == 0 <==> (FewerHold(vol, bytes, file.length) ==> bitmapErr == 0))
      ensures reliable ==> err == 0 || err == ERR_BLK_PARSE_FAIL
      ensures if written then IsTrimmed(old(dir), dir, file.at, bytes) else dir == old(dir) && err != 0
      ensures err == 0 ==> Holds(vol, Owned(vol, old(dir), file.at), file.length) && Holds(vol, Owned(vol, dir, file.at), bytes)
      ensures err == 0 ==> TimeAt(dir[file.at], 12, timestamp)
      ensures err == 0 ==> forall c :: c in Owned(vol, old(dir), file.at) - Owned(vol, dir, file.at) ==> !Marked(vol, bitmap, c)
      ensures forall c: nat :: c !in Owned(vol, old(dir), file.at) ==> (Marked(vol, bitmap, c) <==> Marked(vol, old(bitmap), c))
    {
      hide SetSum, Owned, Marked, IsTrimmed, Visible, Valid, Sound;
      ghost var from := dir;
      VisibleIsValid(dir, file.at);
      err := WriteTrimmed(file.at, bytes, timestamp);
      written := err == 0;
      if err != 0 {
        KeptBySelf(dir, file.at);
        return;
      }
      var oldN, newN := ClustersIn(vol, file.length), ClustersIn(vol, bytes);
      FewerIff(vol, bytes, file.length);
      TrimOwned(vol, from, dir, file.at, bytes);
      ghost var tail := Extent(file.first + newN, oldN - newN);
      TailUnowned(vol, bitmap, from, dir, file.at, tail);
      ExtentInside(vol, bitmap, file.first + newN, oldN - newN);
      ExtentHolds(vol, file.first, file.length);
      ExtentHolds(vol, file.first, bytes);
      if newN < oldN {
        err := Release(file.first + newN, oldN - newN);
      }
    }

    /** The trimmed set is written. */
    method WriteTrimmed(p: nat, bytes: nat, timestamp: nat) returns (err: int)
      requires Consistent() && p in Visible(dir) && Valid(dir, p) && OneSector(dir, p) && NoFatChain(dir[p + 1])
      requires 0 < bytes <= Length(dir[p + 1]) && bytes < Pow256(8)
      modifies `dir
      ensures Consistent() && |dir| == |old(dir)|
      ensures if err != 0 then dir == old(dir)
              else OthersKept(old(dir), dir, p) && p in Visible(dir) && IsTrimmed(old(dir), dir, p, bytes)
                   && TimeAt(dir[p], 12, timestamp)
      ensures reliable ==> err == 0
    {
      hide SetSum, Owned, Visible, IsTrimmed, NoFatChain, TrimmedDir, Ended;
      ghost var from := dir;
      var changed := TrimmedDir(dir, p, bytes, timestamp);
      var base := p / ENTRIES * ENTRIES;
      EntrySector(p, |dir|);
      TrimmedElsewhere(dir, p, bytes, timestamp);
      assert changed == dir[..base] + changed[base..base + ENTRIES] + dir[base + ENTRIES..];
      err := WriteEntries(p / ENTRIES, changed[base..base + ENTRIES]);
      if err == 0 {
        assert dir == changed;
        TrimIs(from, dir, p, bytes, timestamp);
        TrimSeen(from, dir, p, bytes);
        TrimOwned(vol, from, dir, p, bytes);
        SetShrunk(vol, bitmap, from, dir, p);
      }
    }

    /**
     * exfat_delete: the set first, then the bitmap. The file found once more,
     * after it is deleted, is one neither trims or deletes again.
     */
    method Delete(file: File) returns (err: int)
      requires Consistent() && Trusted(file)
      modifies `dir, `bitmap
      ensures Consistent() && |dir| == |old(dir)| && OthersKept(old(dir), dir, file.at)
      ensures dir == old(dir) || (file.at !in Visible(dir) && !LooksWhole(dir, file.at) && BitsCleared(old(dir), dir, file.at))
      ensures err == 0 ==> file.at in Visible(old(dir)) && file.at !in Visible(dir) && !LooksWhole(dir, file.at)
      ensures err == 0 ==> Holds(vol, Owned(vol, old(dir), file.at), file.length)
      ensures err == 0 ==> forall c :: c in Owned(vol, old(dir), file.at) ==> !Marked(vol, bitmap, c)
      ensures forall c: nat :: c !in Owned(vol, old(dir), file.at) ==> (Marked(vol, bitmap, c) <==> Marked(vol, old(bitmap), c))
      ensures reliable ==> (err == 0 <==> file.noFatChain && file.first >= 2 && Unchanged(old(dir), file) && bitmapErr == 0)
      ensures reliable && err != 0 ==>
                err == if file.noFatChain && file.first >= 2 && Unchanged(old(dir), file)
                       then ERR_BLK_PARSE_FAIL else ERR_DELETE_FILE_FAILED
    {
      hide SetSum, Marked, VisibleFrom, Sound, BitsCleared, Holds, Valid;
      KeptBySelf(dir, file.at);
      if !file.noFatChain || file.first < 2 {
        return ERR_DELETE_FILE_FAILED;
      }
      var same;
      err, same := CheckSet(file);
      if err != 0 || !same {
        return if err != 0 then err else ERR_DELETE_FILE_FAILED;
      }
      VisibleIsValid(dir, file.at);
      ghost var from := dir;
      err := WriteUnused(file.at);
      if err != 0 {
        return;
      }
      var n := ClustersIn(vol, file.length);
      ExtentHolds(vol, file.first, file.length);
      GoneUnowned(vol, bitmap, from, dir, file.at);
      ExtentInside(vol, bitmap, file.first, n);
      err := Release(file.first, n);
    }

    /** A sector's entries, those of the set no longer in use. */
    method MarkUnused(base: nat, index: nat, count: nat) returns (buf: seq<Entry>)
      requires base + ENTRIES <= |dir| && index + count + 1 <= ENTRIES
      ensures |buf| == ENTRIES
      ensures forall k :: 0 <= k < ENTRIES ==>
                buf[k] == if index <= k <= index + count then NotInUse(dir[base + k]) else dir[base + k]
    {
      buf := dir[base..base + ENTRIES];
      var i := 0;
      while i <= count
        invariant 0 <= i <= count + 1 && |buf| == ENTRIES
        invariant forall k :: 0 <= k < ENTRIES ==>
                    buf[k] == if index <= k < index + i then NotInUse(dir[base + k]) else dir[base + k]
      {
        buf := buf[index + i := NotInUse(buf[index + i])];
        i := i + 1;
      }
    }

    /** The set's entries are marked unused. */
    method WriteUnused(p: nat) returns (err: int)
      requires Consistent() && p in Visible(dir) && Valid(dir, p) && OneSector(dir, p)
      modifies `dir
      ensures Consistent() && |dir| == |old(dir)|
      ensures if err != 0 then dir == old(dir)
              else OthersKept(old(dir), dir, p) && p !in Visible(dir) && !LooksWhole(dir, p) && BitsCleared(old(dir), dir, p)
      ensures reliable ==> err == 0
    {
      assert Ended(dir);
      hide SetSum, Owned, Visible, Sound, Ended, OthersKept, LooksWhole, BitsCleared;
      ghost var from := dir;
      var base := p / ENTRIES * ENTRIES;
      EntrySector(p, |dir|);
      var buf := MarkUnused(base, p % ENTRIES, dir[p][1]);
      err := WriteEntries(p / ENTRIES, buf);
      if err == 0 {
        Unset(from, dir, p, base, buf);
        SetReplaced(vol, bitmap, from, dir, p);
      }
    }
  }

  /** A set within a sector is the same in the sector's buffer. */
  lemma {:induction false} InBuffer(dir: Dir, p: nat, buf: Dir, index: nat, count: nat)
    requires p < |dir| && |dir| % ENTRIES == 0 && index == p % ENTRIES && count >= 2 && index + count + 1 <= ENTRIES
    requires var base := p / ENTRIES * ENTRIES; base + ENTRIES <= |dir| && buf == dir[base..base + ENTRIES]
    ensures p + count < |dir| && SetSum(buf, index, count) == SetSum(dir, p, count) && buf[index + 1] == dir[p + 1]
  {
    hide SetSum;
    EntrySector(p, |dir|);
    var base := p / ENTRIES * ENTRIES;
    assert forall m :: 0 <= m < ENTRIES ==> buf[m] == dir[base + m];
    SumMoved(buf, index, dir, p, count);
  }

  predicate OneSector(dir: Dir, p: nat)
    requires p < |dir|
  {
    p % ENTRIES + dir[p][1] + 1 <= ENTRIES
  }

  /** What is at p is a file's set, in one sector, with the right checksum. */
  predicate LooksWhole(dir: Dir, p: nat) {
    && p < |dir| && dir[p][0] == T_FILE && dir[p][1] >= 2 && OneSector(dir, p)
    && p + dir[p][1] < |dir| && Stored(dir[p]) == SetSum(dir, p, dir[p][1])
  }

  /** It says what it said of this file. */
  predicate Unchanged(dir: Dir, file: File) {
    LooksWhole(dir, file.at) && First(dir[file.at + 1]) == file.first && Length(dir[file.at + 1]) == file.length
  }

  lemma {:induction false} StreamNext(dir: Dir, p: nat)
    requires Valid(dir, p)
    ensures p + 1 < |dir| && dir[p + 1][0] == T_STREAM
  {
    PartsInside(dir, p, dir[p][1]);
    assert Part(dir, p, 1);
  }

  /** The entries of the set at p have lost the high bit of their first byte, and nothing else is changed. */
  predicate BitsCleared(dir: Dir, dir': Dir, p: nat) {
    p < |dir| == |dir'| && forall k :: 0 <= k < |dir| ==>
      if p <= k <= p + dir[p][1] then dir'[k][0] as nat + 0x80 == dir[k][0] && dir'[k][1..] == dir[k][1..] else dir'[k] == dir[k]
  }

  function NotInUse(e: Entry): Entry {
    [e[0] % 0x80] + e[1..]
  }

  /** The directory exfat_trim writes: new lengths and modified time, and then the checksum of that. */
  function TrimmedDir(dir: Dir, p: nat, bytes: nat, timestamp: nat): (dir': Dir)
    requires p + 1 < |dir| && p + dir[p][1] < |dir|
    ensures |dir'| == |dir|
  {
    var e := Put(dir[p], 12, Bytes(timestamp, 4));
    var s := Put(Put(dir[p + 1], 8, Bytes(bytes, 8)), 24, Bytes(bytes, 8));
    var changed := dir[p := e][p + 1 := s];
    changed[p := Put(e, 2, Bytes(SetSum(changed, p, dir[p][1]), 2))]
  }

  lemma {:induction false} TrimmedElsewhere(dir: Dir, p: nat, bytes: nat, timestamp: nat)
    requires p + 1 < |dir| && p + dir[p][1] < |dir|
    ensures forall k :: 0 <= k < |dir| && k != p && k != p + 1 ==> TrimmedDir(dir, p, bytes, timestamp)[k] == dir[k]
  {}

  /** The set at p has this length now, all of it valid; of the rest only its time and checksum may differ. */
  ghost predicate IsTrimmed(dir: Dir, dir': Dir, p: nat, bytes: nat) {
    && |dir| == |dir'| && Valid(dir', p)
    && (forall k :: 0 <= k < |dir| && k != p && k != p + 1 ==> dir'[k] == dir[k])
    && dir'[p][..2] == dir[p][..2] && dir'[p][4..12] == dir[p][4..12] && dir'[p][16..] == dir[p][16..]
    && dir'[p + 1][..8] == dir[p + 1][..8] && dir'[p + 1][16..24] == dir[p + 1][16..24]
    && Length(dir'[p + 1]) == bytes && ValidLength(dir'[p + 1]) == bytes
  }

  lemma {:induction false} StreamPut(s: Entry, b: seq<u8>)
    requires |b| == 8
    ensures var s' := Put(Put(s, 8, b), 24, b);
            s'[..8] == s[..8] && s'[8..16] == b && s'[16..24] == s[16..24] && s'[24..32] == b
  {}

  lemma {:induction false} FilePut(e: Entry, time: seq<u8>, sum: seq<u8>)
    requires |time| == 4 && |sum| == 2
    ensures var e1 := Put(e, 12, time);
            var e2 := Put(e1, 2, sum);
            && e2[..2] == e[..2] == e1[..2] && e2[2..4] == sum && e2[4..] == e1[4..] && e2[4..12] == e[4..12] && e2[16..] == e[16..]
            && e2[12..16] == time
  {
    var e1 := Put(e, 12, time);
    var e2 := Put(e1, 2, sum);
    assert e1[..12] == e[..12] && e1[16..] == e[16..];
    assert e1[..2] == e1[..12][..2] && e[..2] == e[..12][..2] && e1[4..12] == e1[..12][4..] && e[4..12] == e[..12][4..];
    assert e2[..2] == e1[..2] && e2[4..] == e1[4..];
    assert e2[12..16] == e2[4..][8..12] == e1[4..][8..12] == e1[12..16];
    assert e2[4..12] == e2[4..][..8] && e1[4..12] == e1[4..][..8] && e2[16..] == e2[4..][12..] && e1[16..] == e1[4..][12..];
  }

  lemma {:induction false} SameHeads(e: Entry, e': Entry)
    requires e'[..2] == e[..2]
    ensures e'[0] == e[0] && e'[1] == e[1]
  {
    assert e'[0] == e'[..2][0] && e'[1] == e'[..2][1];
  }

  lemma {:induction false} TrimIs(dir: Dir, dir': Dir, p: nat, bytes: nat, timestamp: nat)
    requires Valid(dir, p) && p + 1 < |dir| && bytes < Pow256(8) && dir' == TrimmedDir(dir, p, bytes, timestamp)
    ensures IsTrimmed(dir, dir', p, bytes) && TimeAt(dir'[p], 12, timestamp)
  {
    assert p + dir[p][1] < |dir|;
    hide SetSum, Put, Bytes, LeVal, Whole, Parts, Valid;
    var count := dir[p][1];
    var e := Put(dir[p], 12, Bytes(timestamp, 4));
    var s := Put(Put(dir[p + 1], 8, Bytes(bytes, 8)), 24, Bytes(bytes, 8));
    var changed := dir[p := e][p + 1 := s];
    var sum := SetSum(changed, p, count);
    StreamPut(dir[p + 1], Bytes(bytes, 8));
    FilePut(dir[p], Bytes(timestamp, 4), Bytes(sum, 2));
    SameHeads(dir[p], dir'[p]);
    assert dir'[p + 1] == s && dir'[p] == Put(e, 2, Bytes(sum, 2));
    SumMoved(dir', p, changed, p, count);
    SetSumRange(changed, p, count);
    Pow2Bytes();
    LeBytes(sum, 2);
    LeBytes(bytes, 8);
    if timestamp < Pow256(4) { LeBytes(timestamp, 4); }
    StillValid(dir, dir', p);
  }

  /** A set stays one if the types of its entries do, and its checksum is right. */
  lemma {:induction false} StillValid(dir: Dir, dir': Dir, p: nat)
    requires |dir| == |dir'| && Valid(dir, p) && p + 1 < |dir| && dir'[p][..2] == dir[p][..2] && dir'[p + 1][..8] == dir[p + 1][..8]
    requires forall k :: 0 <= k < |dir| && k != p && k != p + 1 ==> dir'[k] == dir[k]
    requires SetSum(dir', p, dir[p][1]) == Stored(dir'[p])
    ensures Valid(dir', p)
  {
    hide SetSum;
    SameHeads(dir[p], dir'[p]);
    assert dir'[p + 1][0] == dir'[p + 1][..8][0] == dir[p + 1][0];
    SameTypes(dir, dir', p, dir[p][1]);
  }

  lemma {:induction false} SameTypes(dir: Dir, dir': Dir, i: nat, n: nat)
    requires |dir| == |dir'| && forall k :: i < k < |dir| ==> dir[k][0] == dir'[k][0]
    ensures Parts(dir, i, n) == Parts(dir', i, n)
  {
    if n == 0 {
    } else {
      SameTypes(dir, dir', i, n - 1);
    }
  }

  lemma {:induction false} TrimSeen(dir: Dir, dir': Dir, p: nat, bytes: nat)
    requires Ended(dir) && Valid(dir, p) && IsTrimmed(dir, dir', p, bytes)
    ensures OthersKept(dir, dir', p) && p in Visible(dir) && p in Visible(dir') && Ended(dir')
  {
    hide SetSum, LeVal;
    PartsInside(dir, p, dir[p][1]);
    SameHeads(dir[p], dir'[p]);
    assert dir'[p + 1][0] == dir'[p + 1][..8][0] == dir[p + 1][0];
    SetChanged(dir, dir', p);
  }

  /** It owns the first of its clusters, as many as the new length needs. */
  lemma {:induction false} TrimOwned(vol: Volume, dir: Dir, dir': Dir, p: nat, bytes: nat)
    requires vol.Ok() && p + 1 < |dir| && IsTrimmed(dir, dir', p, bytes)
    requires NoFatChain(dir[p + 1]) && bytes <= Length(dir[p + 1])
    ensures Owned(vol, dir, p) == Extent(First(dir[p + 1]), ClustersIn(vol, Length(dir[p + 1])))
    ensures Owned(vol, dir', p) == Extent(First(dir[p + 1]), ClustersIn(vol, bytes))
    ensures ClustersIn(vol, bytes) <= ClustersIn(vol, Length(dir[p + 1]))
    ensures Owned(vol, dir', p) <= Owned(vol, dir, p)
  {
    hide LeVal, Valid;
    var s, s' := dir[p + 1], dir'[p + 1];
    assert s'[1] == s'[..8][1] == s[..8][1] == s[1];
    assert s'[20..24] == s'[16..24][4..] == s[16..24][4..] == s[20..24];
    MoreClusters(vol, bytes, Length(s));
  }

  lemma {:induction false} MoreClusters(vol: Volume, a: nat, b: nat)
    requires vol.Ok() && a <= b
    ensures ClustersIn(vol, a) <= ClustersIn(vol, b)
  {
    var x, y := a + vol.bytes - 1, b + vol.bytes - 1;
    if x / vol.bytes > y / vol.bytes {
      assert (y / vol.bytes + 1) * vol.bytes <= x / vol.bytes * vol.bytes by { TimesLe(y / vol.bytes + 1, x / vol.bytes, vol.bytes); }
    }
  }

  lemma {:induction false} SetShrunk(vol: Volume, bitmap: seq<bool>, dir: Dir, dir': Dir, p: nat)
    requires Sound(vol, bitmap, dir) && OthersKept(dir, dir', p) && p in Visible(dir) && Ended(dir')
    requires Owned(vol, dir', p) <= Owned(vol, dir, p)
    ensures Sound(vol, bitmap, dir')
  {
    hide Owned, Visible, Valid, SameSet, Marked, Ended;
    assert AllMarked(vol, bitmap, Owned(vol, dir, p));
    SetReplaced(vol, bitmap, dir, dir', p);
  }

  /** What a set owned and no longer does, nobody owns. */
  lemma {:induction false} TailUnowned(vol: Volume, bitmap: seq<bool>, dir: Dir, dir': Dir, p: nat, cs: set<nat>)
    requires Sound(vol, bitmap, dir) && OthersKept(dir, dir', p) && p in Visible(dir)
    requires cs <= Owned(vol, dir, p) && cs !! Owned(vol, dir', p)
    ensures Unowned(vol, dir', cs) && AllMarked(vol, bitmap, cs)
  {
    hide Owned, Visible, Valid, SameSet, Marked, Ended;
    assert AllMarked(vol, bitmap, Owned(vol, dir, p));
    forall i | i in Visible(dir') ensures Owned(vol, dir', i) !! cs {
      if i != p {
        VisibleIsValid(dir, i);
        OwnedSame(vol, dir, dir', i);
      }
    }
  }

  lemma {:induction false} KeptBySelf(dir: Dir, p: nat)
    ensures OthersKept(dir, dir, p)
  {
    KeptSelf(dir);
  }

  lemma {:induction false} Unset(dir: Dir, dir': Dir, p: nat, base: nat, buf: seq<Entry>)
    requires Ended(dir) && Valid(dir, p) && OneSector(dir, p) && base == p / ENTRIES * ENTRIES && base + ENTRIES <= |dir|
    requires |buf| == ENTRIES && dir' == dir[..base] + buf + dir[base + ENTRIES..]
    requires forall k :: 0 <= k < ENTRIES ==>
               buf[k] == if p % ENTRIES <= k <= p % ENTRIES + dir[p][1] then NotInUse(dir[base + k]) else dir[base + k]
    ensures OthersKept(dir, dir', p) && p !in Visible(dir') && !LooksWhole(dir', p) && Ended(dir')
    ensures BitsCleared(dir, dir', p)
  {
    hide BitsCleared;
    var end := p + 1 + dir[p][1];
    forall k | 0 <= k < |dir| ensures dir'[k] == if p <= k < end then NotInUse(dir[k]) else dir[k] {
      if base <= k < base + ENTRIES {
        assert dir'[k] == buf[k - base];
      }
    }
    SetRemoved(dir, dir', p, end);
    SetCleared(dir, dir', p);
  }

  lemma {:induction false} SetCleared(dir: Dir, dir': Dir, p: nat)
    requires Valid(dir, p) && |dir| == |dir'|
    requires forall k :: 0 <= k < |dir| ==> dir'[k] == if p <= k <= p + dir[p][1] then NotInUse(dir[k]) else dir[k]
    ensures BitsCleared(dir, dir', p)
  {
    PartsInside(dir, p, dir[p][1]);
    hide SetSum, Whole, Parts, Valid;
    forall k | p <= k <= p + dir[p][1] ensures dir'[k][0] as nat + 0x80 == dir[k][0] && dir'[k][1..] == dir[k][1..] {
      assert k == p || Part(dir, p, k - p);
    }
  }

  /** What a set owned, once it is gone, nobody owns. */
  lemma {:induction false} GoneUnowned(vol: Volume, bitmap: seq<bool>, dir: Dir, dir': Dir, p: nat)
    requires Sound(vol, bitmap, dir) && OthersKept(dir, dir', p) && p in Visible(dir) && p !in Visible(dir')
    ensures Unowned(vol, dir', Owned(vol, dir, p)) && AllMarked(vol, bitmap, Owned(vol, dir, p))
  {
    hide Owned, Visible, Valid, SameSet;
    forall i | i in Visible(dir') ensures Owned(vol, dir', i) !! Owned(vol, dir, p) {
      VisibleIsValid(dir, i);
      OwnedSame(vol, dir, dir', i);
    }
  }

  lemma {:induction false} FirstMarked(vol: Volume, bitmap: seq<bool>, first: nat, n: nat)
    requires n > 0 && AllMarked(vol, bitmap, Extent(first, n))
    ensures first >= 2
  {
    assert first in Extent(first, n);
  }

  /** The file created is the first of its name, in whatever case, and its clusters are in the volume. */
  lemma {:induction false} CreatedIsFirst(
      vol: Volume, bitmap: seq<bool>, dir: Dir, file: File, name: seq<u8>, asked: seq<u8>, bytes: nat)
    requires Sound(vol, bitmap, dir) && SameUpper(asked, name) && bytes > 0 && file.at in Visible(dir)
    requires Describes(dir, file) && file.length == bytes && file.valid == 0 && file.noFatChain && Matches(dir, file.at, name)
    requires forall i: nat :: i in Visible(dir) && i != file.at ==> !Matches(dir, i, name)
    requires Owned(vol, dir, file.at) == Extent(file.first, ClustersIn(vol, bytes))
    ensures |asked| == |name| && FirstMatch(dir, file.at, asked) && ExtentOk(vol, dir[file.at + 1])
    ensures forall k: nat :: FirstMatch(dir, k, asked) ==> k == file.at
  {
    hide Matches, Valid, Owned, Marked, SameUpper, VisibleFrom;
    SameLength(asked, name);
    VisibleIsValid(dir, file.at);
    forall k | k in Visible(dir) ensures Matches(dir, k, asked) <==> k == file.at {
      MatchesAnyCase(dir, k, asked, name);
    }
    SomeClusters(vol, bytes);
    var n := ClustersIn(vol, bytes);
    ExtentInside(vol, bitmap, file.first, n);
    InVolumeIff(vol, file.first, bytes);
    FirstMarked(vol, bitmap, file.first, n);
  }

  lemma {:induction false} SameLength(a: seq<nat>, b: seq<nat>)
    requires SameUpper(a, b)
    ensures |a| == |b|
  {}

  lemma {:induction false} ExtentInside(vol: Volume, bitmap: seq<bool>, first: nat, n: nat)
    requires AllMarked(vol, bitmap, Extent(first, n))
    ensures n == 0 || first + n <= vol.count + 2
  {
    if n > 0 { assert first + n - 1 in Extent(first, n); }
  }

  lemma {:induction false} SetAppears(vol: Volume, dir: Dir, dir': Dir, p: nat, name: seq<u8>, bytes: nat, timestamp: nat, first: nat)
    requires vol.Ok() && |dir| == |dir'| && Ended(dir) && NoEnd(dir, p) && FreeThree(dir, p)
    requires NameOk(name) && bytes < Pow256(8) && first < vol.count + 2
    requires dir'[p..p + 3] == NewSet(name, bytes, timestamp, first)
    requires forall k :: 0 <= k < |dir| && !(p <= k < p + 3) ==> dir'[k] == dir[k]
    ensures OthersKept(dir, dir', p) && p in Visible(dir') && p !in Visible(dir) && Ended(dir')
    ensures Matches(dir', p, name) && Describes(dir', File(p, bytes, 0, first, true, false)) && FreshFile(dir'[p], timestamp)
    ensures Owned(vol, dir', p) == Extent(first, ClustersIn(vol, bytes))
  {
    hide NewSet, Matches;
    Pow4Bytes();
    NewSetRead(dir', p, name, bytes, timestamp, first);
    NewSetSum(dir', p, name, bytes, timestamp, first);
    FileFields(SetSum([FileEntry(0, timestamp), dir'[p + 1], dir'[p + 2]], 0, 2), timestamp);
    NewSetFirst(name, bytes, timestamp, first);
    assert dir'[p] == dir'[p..p + 3][0];
    SetAdded(dir, dir', p);
  }

  lemma {:induction false} NewSetFirst(name: seq<u8>, bytes: nat, timestamp: nat, first: nat)
    requires |name| <= 15
    ensures var set3 := NewSet(name, bytes, timestamp, first);
            set3[0] == FileEntry(SetSum([FileEntry(0, timestamp), set3[1], set3[2]], 0, 2), timestamp)
  {}

  lemma {:induction false} Pow4Bytes()
    ensures Pow256(4) == 0x1_0000_0000
  {
    assert Pow256(2) == 0x1_0000;
  }

  /** Past the end's sector the first free entries are those at the next sector's start. */
  lemma {:induction false} SlotAfterEnd(dir: Dir, slot: Scan)
    requires Ended(dir) && SlotFound(dir, slot) && slot.ended && slot.q / ENTRIES != slot.p / ENTRIES
    ensures slot.p == slot.q / ENTRIES * ENTRIES + ENTRIES
  {
    var r := slot.q / ENTRIES * ENTRIES + ENTRIES;
    assert slot.p >= r;
    assert dir[r][0] == T_END && dir[r + 1][0] == T_END && dir[r + 2][0] == T_END;
    assert SlotAt(dir, r);
  }

  lemma {:induction false} RunUnowned(vol: Volume, bitmap: seq<bool>, dir: Dir, first: nat, n: nat)
    requires Sound(vol, bitmap, dir) && first >= 2 && FreeRun(bitmap, vol.count, first - 2, n)
    ensures Unowned(vol, dir, Extent(first, n))
    ensures forall c :: c in Extent(first, n) ==> !Marked(vol, bitmap, c)
  {
    FreeIsUnowned(vol, bitmap, dir, Extent(first, n));
  }

  lemma {:induction false} UnownedLess(vol: Volume, dir: Dir, cs: set<nat>, less: set<nat>)
    requires vol.Ok() && Unowned(vol, dir, cs) && less <= cs
    ensures Unowned(vol, dir, less)
  {}

  lemma {:induction false} UnownedStill(vol: Volume, dir: Dir, dir': Dir, cs: set<nat>)
    requires vol.Ok() && Unowned(vol, dir, cs) && AllKept(dir, dir') && NoneNew(dir, dir')
    ensures Unowned(vol, dir', cs)
  {
    hide Owned, Visible, Valid, SameSet;
    forall i | i in Visible(dir') ensures Owned(vol, dir', i) !! cs {
      VisibleIsValid(dir, i);
      OwnedSame(vol, dir, dir', i);
    }
  }

  lemma {:induction false} KeptTwice(dir: Dir, dir': Dir, dir'': Dir, p: nat)
    requires AllKept(dir, dir') && NoneNew(dir, dir') && OthersKept(dir', dir'', p) && p !in Visible(dir')
    ensures AllKept(dir, dir'') && p !in Visible(dir)
    ensures forall i: nat :: i in Visible(dir'') && i != p ==> i in Visible(dir)
  {
    hide Visible, Valid;
    forall i: nat | i in Visible(dir) ensures i in Visible(dir'') && SameSet(dir, dir'', i) {
      assert SameSet(dir, dir', i) && SameSet(dir', dir'', i);
    }
  }

  lemma {:induction false} NamesApart(dir: Dir, dir': Dir, dir'': Dir, p: nat, name: seq<u8>)
    requires AllKept(dir, dir') && NoneNew(dir, dir') && OthersKept(dir', dir'', p)
    requires forall k :: k in Visible(dir) ==> !Matches(dir, k, name)
    ensures forall i: nat :: i in Visible(dir'') && i != p ==> !Matches(dir'', i, name)
  {
    hide Valid, Matches, VisibleFrom;
    forall i: nat | i in Visible(dir'') && i != p ensures !Matches(dir'', i, name) {
      assert SameSet(dir, dir', i) && SameSet(dir', dir'', i);
      VisibleIsValid(dir, i);
      VisibleIsValid(dir', i);
      VisibleIsValid(dir'', i);
      MatchesSame(dir, dir', i, name);
      MatchesSame(dir', dir'', i, name);
    }
  }

  /** A new file is seen, as asked for, and it is the only one of its name. */
  ghost predicate Created(dir: Dir, dir': Dir, file: File, name: seq<u8>, bytes: nat) {
    && (forall i: nat :: i in Visible(dir') && i != file.at ==> i in Visible(dir))
    && file.at in Visible(dir') && file.at !in Visible(dir)
    && Describes(dir', file) && file.length == bytes && file.valid == 0 && file.noFatChain
    && Matches(dir', file.at, name)
    && forall i: nat :: i in Visible(dir') && i != file.at ==> !Matches(dir', i, name)
  }

  /** As it was, or an end-of-directory entry made an unused one. */
  predicate AsWas(e: Entry, e': Entry) {
    e' == e || (e[0] == 0 && e'[0] == 0x05 && forall j :: 1 <= j < 32 ==> e'[j] == 0)
  }

  /** Only the n entries from p on are written over, none of them in use (their first bytes' high bits clear). */
  predicate SlotOnly(dir: Dir, dir': Dir, p: nat, n: nat) {
    |dir| == |dir'| && forall k :: 0 <= k < |dir| ==> if p <= k < p + n then dir[k][0] < 0x80 else AsWas(dir[k], dir'[k])
  }

  lemma {:induction false} SlotWritten(dir: Dir, dir': Dir, dir'': Dir, p: nat)
    requires SlotOnly(dir, dir', 0, 0) && |dir''| == |dir'| && FreeThree(dir', p)
    requires forall k :: 0 <= k < |dir'| && !(p <= k < p + 3) ==> dir''[k] == dir'[k]
    ensures SlotOnly(dir, dir'', p, 3)
  {
    forall k | 0 <= k < |dir| ensures if p <= k < p + 3 then dir[k][0] < 0x80 else AsWas(dir[k], dir''[k]) {
      assert AsWas(dir[k], dir'[k]);
      if p <= k < p + 3 {
        assert k == p || k == p + 1 || k == p + 2;
      }
    }
  }

  lemma {:induction false} EntrySector(p: nat, size: nat)
    requires p < size && size % ENTRIES == 0
    ensures p / ENTRIES * ENTRIES + ENTRIES <= size && p == p / ENTRIES * ENTRIES + p % ENTRIES
  {}

  lemma {:induction false} Respliced(dir: Dir, dir': Dir, base: nat, index: nat, set3: seq<Entry>, buf: seq<Entry>)
    requires |set3| == 3 && index <= 13 && base + ENTRIES <= |dir|
    requires buf == dir[base..base + ENTRIES][..index] + set3 + dir[base..base + ENTRIES][index + 3..]
    requires dir' == dir[..base] + buf + dir[base + ENTRIES..]
    ensures dir'[base + index..base + index + 3] == set3
    ensures forall k :: 0 <= k < |dir| && !(base + index <= k < base + index + 3) ==> dir'[k] == dir[k]
  {
    forall k | 0 <= k < |dir| && !(base + index <= k < base + index + 3) ensures dir'[k] == dir[k] {
      if base <= k < base + ENTRIES {
        assert dir'[k] == buf[k - base] == dir[base..base + ENTRIES][k - base];
      }
    }
    forall j | 0 <= j < 3 ensures dir'[base + index + j] == set3[j] {
      assert dir'[base + index + j] == buf[index + j];
    }
  }

  lemma {:induction false} SomeClusters(vol: Volume, bytes: nat)
    requires vol.Ok() && bytes > 0
    ensures ClustersIn(vol, bytes) > 0
  {
    var x := bytes + vol.bytes - 1;
    assert x >= vol.bytes;
  }

  function UnusedEntry(): Entry {
    [UNUSED] + Zeros(31)
  }

  // ---- what the walk comes to --------------------------------------------------------------------

  /** A set at i that is cut off by the directory's end. */
  predicate CutOff(dir: Dir, i: nat)
    requires i < |dir|
  {
    Starts(dir[i]) && !Whole(dir, i) && Next(dir, i) == |dir|
  }

  lemma {:induction false} NotCutOff(dir: Dir, i: nat)
    requires i < |dir|
    ensures CutOff(dir, i) ==> !Valid(dir, i)
  {}

  /** A walk from i ends at an end-of-directory entry, or where the chain of clusters ends well. */
  predicate Closes(dir: Dir, i: nat, chainErr: int)
    decreases |dir| - i
  {
    i >= |dir| || dir[i][0] == T_END
    || (!CutOff(dir, i) && (Next(dir, i) == |dir| ==> chainErr == 0) && Closes(dir, Next(dir, i), chainErr))
  }

  /** A directory with an end-of-directory entry. */
  lemma {:induction false} EndCloses(dir: Dir, i: nat, q: nat, chainErr: int)
    requires i <= q < |dir| && dir[q][0] == T_END
    ensures Closes(dir, i, chainErr)
    decreases q - i
  {
    if i >= q || dir[i][0] == T_END {
    } else {
      PartsAlike(dir, dir, i, dir[i][1], q);
      EndCloses(dir, Next(dir, i), q, chainErr);
    }
  }

  ghost predicate NoMatch(dir: Dir, name: seq<u8>) {
    forall k :: k in Visible(dir) ==> !Matches(dir, k, name)
  }

  /** The first set of this name. */
  ghost predicate FirstMatch(dir: Dir, k: nat, name: seq<u8>) {
    && k in Visible(dir) && Matches(dir, k, name) && k + 2 < |dir|
    && forall j :: j in Visible(dir) && j < k ==> !Matches(dir, j, name)
  }

  lemma {:induction false} OnlyFirst(dir: Dir, k: nat, name: seq<u8>)
    ensures forall j :: FirstMatch(dir, k, name) && FirstMatch(dir, j, name) ==> j == k
  {}

  /** exfat_find comes to the same set for this name, or to none in both, and reads the same of it. */
  ghost predicate FoundAlike(dir: Dir, dir': Dir, name: seq<u8>) {
    && (NoMatch(dir, name) <==> NoMatch(dir', name))
    && (forall k: nat :: FirstMatch(dir, k, name) <==> FirstMatch(dir', k, name))
    && (forall k: nat :: FirstMatch(dir, k, name) ==> dir'[k + 1] == dir[k + 1] && Description(dir', k) == Description(dir, k))
  }

  /** A change to the set at p alone: every name but its own, old and new, is found as before. */
  lemma {:induction false} OthersFound(dir: Dir, dir': Dir, p: nat, name: seq<u8>)
    requires OthersKept(dir, dir', p) && |dir| == |dir'|
    requires (p in Visible(dir) ==> !Matches(dir, p, name)) && (p in Visible(dir') ==> !Matches(dir', p, name))
    ensures FoundAlike(dir, dir', name)
  {
    hide Matches, Valid, SameSet, VisibleFrom;
    forall k: nat | k != p && k in Visible(dir)
      ensures Matches(dir, k, name) <==> Matches(dir', k, name)
      ensures k + 2 < |dir| && dir[k] == dir'[k] && dir[k + 1] == dir'[k + 1]
    {
      SetAlike(dir, dir', k, name);
    }
  }

  lemma {:induction false} SetAlike(dir: Dir, dir': Dir, k: nat, name: seq<u8>)
    requires k in Visible(dir) && k in Visible(dir') && SameSet(dir, dir', k)
    ensures k + 2 < |dir| == |dir'| && dir[k] == dir'[k] && dir[k + 1] == dir'[k + 1]
    ensures Matches(dir, k, name) <==> Matches(dir', k, name)
  {
    VisibleIsValid(dir, k);
    VisibleIsValid(dir', k);
    MatchesSame(dir, dir', k, name);
  }

  /** So a create that stops anywhere before its last write leaves every name found as it was, */
  lemma {:induction false} AllFound(dir: Dir, dir': Dir, name: seq<u8>)
    requires AllKept(dir, dir') && NoneNew(dir, dir') && |dir| == |dir'|
    ensures FoundAlike(dir, dir', name)
  {
    hide Matches, Valid, SameSet, VisibleFrom;
    var p := |dir|;
    assert OthersKept(dir, dir', p);
    OthersFound(dir, dir', p, name);
  }

  /** and one that succeeds, every name but the new one. */
  lemma {:induction false} OldFound(dir: Dir, dir': Dir, file: File, name: seq<u8>, bytes: nat, other: seq<u8>)
    requires AllKept(dir, dir') && Created(dir, dir', file, name, bytes) && |dir| == |dir'|
    requires !SameUpper(other, name)
    ensures FoundAlike(dir, dir', other)
  {
    hide Valid, SameSet, VisibleFrom;
    assert OthersKept(dir, dir', file.at);
    if Matches(dir', file.at, other) { OneName(dir', file.at, other, name); }
    OthersFound(dir, dir', file.at, other);
  }

  lemma {:induction false} OneName(dir: Dir, i: nat, a: seq<u8>, b: seq<u8>)
    requires Valid(dir, i) && Matches(dir, i, a) && Matches(dir, i, b)
    ensures SameUpper(a, b)
  {}

  /** Nothing is seen past a place where the walk stops. */
  lemma {:induction false} NextPastAll(dir: Dir, i: nat, name: seq<u8>)
    requires i < |dir| && Next(dir, i) == |dir|
    ensures VisibleFrom(dir, i) <= {i}
  {}

  /** Every file seen before is seen still, as it was. */
  ghost predicate AllKept(dir: Dir, dir': Dir) {
    forall i: nat :: i in Visible(dir) ==> i in Visible(dir') && SameSet(dir, dir', i)
  }

  ghost predicate NoneNew(dir: Dir, dir': Dir) {
    forall i: nat :: i in Visible(dir') ==> i in Visible(dir)
  }

  lemma {:induction false} KeptSelf(dir: Dir)
    ensures AllKept(dir, dir) && NoneNew(dir, dir)
  {
    forall i: nat | i in Visible(dir) ensures SameSet(dir, dir, i) {
      VisibleIsValid(dir, i);
    }
  }

  lemma {:induction false} KeptByChange(dir: Dir, dir': Dir, q: nat)
    requires OthersKept(dir, dir', q) && q !in Visible(dir) && q !in Visible(dir')
    ensures AllKept(dir, dir') && NoneNew(dir, dir')
  {}

  lemma {:induction false} Moved(dir: Dir, dir': Dir, q: nat, base: nat, buf: seq<Entry>)
    requires Ended(dir) && q < |dir| && dir[q][0] == T_END && NoEnd(dir, q)
    requires base == q / ENTRIES * ENTRIES && base + ENTRIES < |dir| && |buf| == ENTRIES
    requires forall k :: 0 <= k < ENTRIES ==>
               if q % ENTRIES <= k then buf[k] == UnusedEntry() else buf[k] == dir[base + k]
    requires dir' == dir[..base] + buf + dir[base + ENTRIES..]
    ensures OthersKept(dir, dir', q) && q !in Visible(dir) && q !in Visible(dir') && Ended(dir')
    ensures NoEnd(dir', base + ENTRIES) && SlotOnly(dir, dir', 0, 0)
    ensures forall k :: 0 <= k < |dir| && !(q <= k < base + ENTRIES) ==> dir'[k] == dir[k]
  {
    var r := base + ENTRIES;
    forall k | 0 <= k < |dir| ensures if q <= k < r then dir'[k] == UnusedEntry() else dir'[k] == dir[k] {
      if base <= k < r {
        assert dir'[k] == buf[k - base];
      }
    }
    EndMoved(dir, dir', q, r);
  }

  /** The scan for a slot: a run of entries not in use from p, and the first end-of-directory entry. */
  datatype Scan = Scan(run: nat, p: nat, ended: bool, q: nat)

  ghost predicate Scanning(dir: Dir, i: nat, s: Scan) {
    && i <= |dir| && s.run < 3 && (s.run > 0 ==> s.p + s.run == i)
    && (s.run > 0 && i % ENTRIES != 0 ==> s.p / ENTRIES == i / ENTRIES)
    && (forall k :: i - s.run <= k < i && k >= 0 ==> !InUse(dir[k]))
    && (i % ENTRIES != 0 ==> RunReaches(dir, i, s.run))
    && (forall r: nat :: SlotAt(dir, r) ==> r + 3 > i)
    && (if s.ended then s.q < i && dir[s.q][0] == T_END && NoEnd(dir, s.q) else NoEnd(dir, i))
    && (s.ended && i % ENTRIES != 0 && s.q / ENTRIES == i / ENTRIES ==> s.run > 0 && s.p <= s.q)
  }

  /** The run goes back to the sector's start, or to an entry in use. */
  ghost predicate RunReaches(dir: Dir, i: nat, run: nat) {
    i <= |dir| && (run >= i % ENTRIES || InUse(dir[i - run - 1]))
  }

  ghost predicate SlotFound(dir: Dir, s: Scan) {
    && SlotAt(dir, s.p)
    && (forall r: nat :: SlotAt(dir, r) ==> r >= s.p)
    && (if s.ended then s.q < s.p + 3 && dir[s.q][0] == T_END && NoEnd(dir, s.q) else NoEnd(dir, s.p + 3))
    && (s.ended && s.q / ENTRIES == s.p / ENTRIES ==> s.p <= s.q)
  }

  lemma {:induction false} ScanStart(dir: Dir)
    ensures Scanning(dir, 0, Scan(0, 0, false, 0))
  {}

  predicate FreeThree(dir: Dir, p: nat) {
    p + 3 <= |dir| && !InUse(dir[p]) && !InUse(dir[p + 1]) && !InUse(dir[p + 2])
  }

  /** Three entries not in use from r on, in one sector. */
  predicate SlotAt(dir: Dir, r: nat) {
    r % ENTRIES <= ENTRIES - 3 && FreeThree(dir, r)
  }

  predicate NoEnd(dir: Dir, p: nat) {
    p <= |dir| && forall k :: 0 <= k < p ==> dir[k][0] != T_END
  }

  /** The clusters a set speaks of are in the volume. */
  predicate ExtentOk(vol: Volume, s: Entry)
    requires vol.Ok()
  {
    && ValidLength(s) <= Length(s)
    && if First(s) == 0 then Length(s) == 0
       else Length(s) > 0 && 2 <= First(s) && RoomFor(vol, Length(s), vol.count + 2 - First(s))
  }

  lemma {:induction false} InVolumeIff(vol: Volume, first: nat, length: nat)
    requires vol.Ok()
    ensures RoomFor(vol, length, vol.count + 2 - first) <==> first + ClustersIn(vol, length) <= vol.count + 2
    ensures ClustersIn(vol, length) > 0 <==> length > 0
  {
    RoomIff(vol, length, 0);
    if first <= vol.count + 2 {
      RoomIff(vol, length, vol.count + 2 - first);
    } else {
      TimesLe(1, first - vol.count - 2, vol.bytes);
      assert (vol.count + 2 - first) * vol.bytes == -((first - vol.count - 2) * vol.bytes);
    }
  }

  function Description(dir: Dir, i: nat): File
    requires i + 1 < |dir|
  {
    var s := dir[i + 1];
    File(i, Length(s), ValidLength(s), First(s), NoFatChain(s), LeVal(dir[i][4..6]) / 0x10 % 2 == 1)
  }

  /** What the description says, by the places of the fields in a set's first two entries. */
  lemma {:induction false} DescriptionIs(dir: Dir, i: nat)
    requires i + 1 < |dir|
    ensures var f, s := Description(dir, i), dir[i + 1];
            && f.at == i && f.length == LeVal(s[24..32]) && f.valid == LeVal(s[8..16]) && f.first == LeVal(s[20..24])
            && (f.noFatChain <==> s[1] % 4 >= 2) && (f.isDirectory <==> dir[i][4] % 0x20 >= 0x10)
  {
    var e := dir[i][4..6];
    var high := LeVal(e[1..]);
    assert LeVal(e) == e[0] + 0x100 * high && e[0] == dir[i][4];
    hide LeVal;
    BitFour(e[0], high);
    FieldsOfEntry(dir[i + 1], 15);
  }

  lemma {:induction false} BitFour(low: nat, high: nat)
    ensures (low + 0x100 * high) / 0x10 % 2 == 1 <==> low % 0x20 >= 0x10
  {
    var q, r := low / 0x20, low % 0x20;
    var bit := if r >= 0x10 then 1 else 0;
    Quotient(low + 0x100 * high, 0x10, 2 * (q + 8 * high) + bit, r - 0x10 * bit);
  }

  /** The file is as its set says. */
  predicate Describes(dir: Dir, file: File) {
    file.at + 1 < |dir| && file == Description(dir, file.at)
  }

  lemma {:induction false} CountNone(name: seq<nat>)
    ensures CountSame([], name) == 0
  {}

  lemma {:induction false} OneMoreChar(a: seq<nat>, c: nat, name: seq<nat>)
    ensures CountSame(a + [c], name) ==
            CountSame(a, name) + if |a| < |name| && Upper(c) == Upper(name[|a|]) then 1 else 0
  {
    assert (a + [c])[..|a|] == a;
  }

  lemma {:induction false} SumStart(dir: Dir, i: nat)
    requires i < |dir|
    ensures SetSum(dir, i, 0) == Sum16(Sum16(0, dir[i][..2]), dir[i][4..])
  {}

  lemma {:induction false} SumStep(dir: Dir, i: nat, k: nat)
    requires k > 0 && i + k < |dir|
    ensures SetSum(dir, i, k) == Sum16(SetSum(dir, i, k - 1), dir[i + k])
  {}

  /** The first secondary that is not there ends the set. */
  lemma {:induction false} PartsStop(dir: Dir, i: nat, k: nat, n: nat)
    requires 1 <= k <= n && Parts(dir, i, k - 1) == k - 1
    ensures !Part(dir, i, k) ==> Parts(dir, i, n) == k - 1
    ensures Part(dir, i, k) ==> Parts(dir, i, k) == k
    decreases n
  {
    if n <= k {
    } else {
      PartsStop(dir, i, k, n - 1);
    }
  }

  lemma {:induction false} NoParts(dir: Dir, i: nat)
    ensures Parts(dir, i, 0) == 0
  {}

  /** What secondary k says of the set at i, if those before it are there. */
  lemma {:induction false} SetStops(dir: Dir, i: nat, k: nat)
    requires i < |dir| && Starts(dir[i]) && 1 <= k <= dir[i][1] && Parts(dir, i, k - 1) == k - 1 && i + k <= |dir|
    ensures i + k == |dir| ==> CutOff(dir, i)
    ensures i + k < |dir| && !Part(dir, i, k) ==> !Whole(dir, i) && Next(dir, i) == i + k && !Valid(dir, i) && !CutOff(dir, i)
    ensures Part(dir, i, k) ==> Parts(dir, i, k) == k
  {
    PartsStop(dir, i, k, dir[i][1]);
  }

  lemma {:induction false} SetWhole(dir: Dir, i: nat)
    requires i < |dir| && Starts(dir[i]) && Parts(dir, i, dir[i][1]) == dir[i][1] && i + dir[i][1] < |dir|
    ensures Whole(dir, i) && Next(dir, i) == i + 1 + dir[i][1] && !CutOff(dir, i)
    ensures Valid(dir, i) <==> SetSum(dir, i, dir[i][1]) == Stored(dir[i])
  {}

  /** A sector with bits bit to stop - 1 filled is put back. */
  lemma {:induction false} MarkStep(was: seq<bool>, from: seq<bool>, base: nat, buf: seq<bool>, to: seq<bool>,
                                    low: int, bit: nat, stop: nat, value: bool)
    requires |was| == |from| && base + BITS <= |from| && |buf| == BITS && low <= bit <= stop <= base + BITS && base <= bit
    requires forall k :: 0 <= k < |from| ==> from[k] == if low <= k < bit then value else was[k]
    requires forall i :: 0 <= i < BITS ==> buf[i] == if bit <= base + i < stop then value else from[base..base + BITS][i]
    requires to == from[..base] + buf + from[base + BITS..]
    ensures |to| == |from| && forall k :: 0 <= k < |to| ==> to[k] == if low <= k < stop then value else was[k]
  {
    forall k | 0 <= k < |to| ensures to[k] == if low <= k < stop then value else was[k] {
      if base <= k < base + BITS {
        var i := k - base;
        assert to[k] == buf[i] && from[base..base + BITS][i] == from[k];
      }
    }
  }

  /** Bits b to b + n - 1 are clear. */
  predicate FreeRun(bitmap: seq<bool>, count: nat, b: int, n: nat) {
    0 <= b && b + n <= count <= |bitmap| && forall k :: b <= k < b + n ==> !bitmap[k]
  }

  /** There are free clusters in a row with room for `bytes` bytes. */
  ghost predicate RunWithRoom(vol: Volume, bitmap: seq<bool>, bytes: nat) {
    exists b, n: nat :: FreeRun(bitmap, vol.count, b, n) && RoomFor(vol, bytes, n)
  }

  lemma {:induction false} RunWithRoomIff(vol: Volume, bitmap: seq<bool>, bytes: nat)
    requires vol.Ok()
    ensures RunWithRoom(vol, bitmap, bytes) <==> exists b :: FreeRun(bitmap, vol.count, b, ClustersIn(vol, bytes))
  {
    hide ClustersIn, RoomFor;
    var q := ClustersIn(vol, bytes);
    RoomIff(vol, bytes, q);
    forall b, n: nat | FreeRun(bitmap, vol.count, b, n) && RoomFor(vol, bytes, n) ensures FreeRun(bitmap, vol.count, b, q) {
      RoomIff(vol, bytes, n);
    }
  }

  lemma {:induction false} RunsInside(bitmap: seq<bool>, count: nat, n: nat)
    ensures forall b :: FreeRun(bitmap, count, b, n) ==> 0 <= b && b + n <= count
  {}

  lemma {:induction false} RunFound(bitmap: seq<bool>, count: nat, at: nat, n: nat)
    requires at + n <= count <= |bitmap| && forall k :: at <= k < at + n ==> !bitmap[k]
    ensures FreeRun(bitmap, count, at, n)
  {}

  lemma {:induction false} RunTooShort(bitmap: seq<bool>, count: nat, bit: nat, run: nat, n: nat)
    requires bit <= count <= |bitmap| && run <= bit && run < n
    requires bit - run == 0 || bitmap[bit - run - 1]
    requires forall b :: 0 <= b && b + n < bit ==> !FreeRun(bitmap, count, b, n)
    ensures forall b :: 0 <= b && b + n <= bit ==> !FreeRun(bitmap, count, b, n)
  {
    var b := bit - n;
    if 0 <= b {
      assert b <= bit - run - 1 < b + n;
      assert !FreeRun(bitmap, count, b, n);
    }
  }

  lemma {:induction false} NoneBefore(bitmap: seq<bool>, count: nat, at: nat, n: nat)
    requires n > 0 && at + n <= count <= |bitmap| && (at == 0 || bitmap[at - 1])
    requires forall b :: 0 <= b && b + n < at + n ==> !FreeRun(bitmap, count, b, n)
    ensures forall b :: 0 <= b < at ==> !FreeRun(bitmap, count, b, n)
  {}

  /** The buffer is the bitmap sector that has the bit. */
  predicate Loaded(bitmap: seq<bool>, bit: nat, buf: seq<bool>) {
    bit / BITS * BITS + BITS <= |bitmap| && buf == bitmap[bit / BITS * BITS..bit / BITS * BITS + BITS]
  }

  lemma {:induction false} SameSector(bitmap: seq<bool>, bit: nat, buf: seq<bool>)
    requires Loaded(bitmap, bit, buf)
    ensures buf[bit % BITS] == bitmap[bit] && ((bit + 1) % BITS != 0 ==> Loaded(bitmap, bit + 1, buf))
  {
    assert (bit + 1) % BITS != 0 ==> (bit + 1) / BITS == bit / BITS;
  }

  lemma {:induction false} SectorInside(sector: nat, bit: nat, size: nat)
    requires sector == bit / BITS && bit < size && size % BITS == 0
    ensures sector * BITS <= bit < sector * BITS + BITS <= size
  {}
}
